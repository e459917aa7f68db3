# Soft64 core model

A Dafny model of the parts of the Soft64 emulator core whose behaviour spans several functions:

- the mapped memory of `UnifiedStream` with its zone map, its transfer planner and its compiled-access
  cache (`Streams`, `ZoneMap`, `IoEngine`, `ReadOnlyZones`, `AddedZone`, `IoCompiler`, `MemoryMap`,
  `CacheCoherence`, `MapContents`, `UnifiedStreams`);
- the delay-slot state machine of the interpreter (`DelaySlot`, `Interpreters`);
- the pause and resume protocol of the task scheduler (`PauseProtocol`);
- the TLB, its entry encodings and its replacement rule (`TlbEncoding`, `TlbModel`, `TlbRuns`,
  `TlbCaches`);
- the lazily loaded block cache over a ROM image (`BlockStreams`);
- the arithmetic kernels: cartridge checksum (`RomChecksums`), table CRC-32 (`CrcKernel`, `CrcTable`,
  `Crc32`), byte-swap streams and image detection (`ByteSwap`, `Cartridge`), and the unaligned load
  and store pairs (`Bytes`, `Unaligned`), over two's complement operators on integers (`Bits`) and the
  machine integers that all components share (`Common`).

`dafny verify dfyconfig.toml` checks everything.

## How it is built

Each component that the program updates in place is a class with the same fields, and each of its
methods states its whole effect as a pure function of the state before the call. The theorems are
lemmas about those functions, about single steps and about whole runs.

Integers are unbounded, so C# casts, wrap-around and shift widths are written out. Arithmetic is
taken as unchecked; the carry test of the cartridge checksum needs that, and no claim is made about
overflow exceptions. Where a C# method throws, the model returns `false` or an error status and says
what has changed by then.

A `ByteStream` stands for the .NET stream under a zone: a fixed length, reads and writes that stop at
its end, and an exception for a negative position or a range outside the buffer. In the delay-slot
model the effect of any instruction that does not transfer control is a parameter.

In the rows below a request to the mapped memory is *admissible* when a caller could check that the
compiled cache will not mistake it: the compiler is off, or the buffer offset is 0, the address is
below 2^32 and the count below 2^16, the request does not evict its own key, and its stream searches
hit; and a zone that is added *disturbs* no cached request. A request *meets* the zone when it starts in
it, or starts in a zone below and ends above its base. A zone that can be written disturbs exactly the
requests that meet it. One that cannot is skipped by the planner, so on disjoint zones it disturbs fewer:
a request that starts in a zone is disturbed only if the planner clipped its last zone (two or more
zones, all writable, the last one ending with or beyond the request and asked for other than its cast
length), and one that starts in a gap only if it now touches a zone that can be written. An I/O request
is *servable* when the zones are disjoint, the zones it touches can be written, and the buffer offset is
0 or harmless for the last zone.

## Where the code departs from its evident intent

The model follows the code. Each of the following is a lemma, most of them with the exact condition
under which the code does meet the intent.

- The first stream of a request is asked for the whole count (`ReadOnlyZones.PlanStaysInsideIff`), and
  the buffer offset is subtracted from the count of a cut-off last zone (`ReadOnlyZones.PlanServesIff`).
- Read-only zones are skipped, in reads too, and their place in the request is not counted, so a zone behind
  a read-only first one is misplaced in the buffer and a cut-off last zone behind one overruns the request
  (`ReadOnlyZones.ReadOnlyFirstZoneMisplaces`, `ReadOnlyZones.ReadOnlyMiddleZoneOverruns`; the exact
  condition is in `ReadOnlyZones.PlanServesIff`).
- The search for a registered stream never finds the last one
  (`IoCompiler.ResolvesToTheStreamIff`, `CacheCoherence.LastRegisteredStreamIsMistaken`).
- A request may evict its own key after its query was skipped
  (`CacheCoherence.ReplayedIsInterpretedIff`), and adding a zone neither clears the cache nor checks
  the next zone (`CacheCoherence.AddKeepsCoherentIff`, `ZoneMap.AddKeepsSeparatedIff`).
- A branch in a delay slot is dropped (`DelaySlot.StepSimulatesIff`, `DelaySlot.RunTracksIff`), and may
  leave the nullify flag set (`DelaySlot.StepKeepsInvIff`, `DelaySlot.StaleFlagSkipsALaterSlot`); BLEZ
  compares unsigned (`DelaySlot.BlezFollowsArchitectureIff`); BC1F and BC1FL branch on a true condition
  (`DelaySlot.CoprocessorBranchFollowsArchitectureIff`); the jump mask also keeps bits 16 to 27 of the
  slot address (`DelaySlot.JumpTargetFollowsArchitectureIff`).
- Overlapping calls of two controllers can make the pause exchange fail
  (`PauseProtocol.ExchangeNeverFailsIff`); calls that do not overlap never do
  (`PauseProtocol.SetMeansUnsignalled`).
- A replaced TLB entry leaves its key behind (`TlbModel.FillStaysExactIff`), so writing a slot again
  with its own page is taken for a duplicate and shuts the TLB down (`TlbModel.FillDuplicatesIff`);
  removing a global entry takes its page from the other dictionary
  (`TlbModel.RemoveKeepsAgreementIff`, `TlbModel.RemoveLeavesNoStaleKeyIff`);
  TLBP never finds a page that only a global entry holds, and takes the first global entry for any
  page (`TlbModel.GlobalPageIsNotFound`, `TlbModel.ProbeFindsThePageIff`); page masks above 4 KB do
  not read back (`TlbEncoding.PageSizeOfMask`); random writes miss every other slot when the number
  of unwired ones is even (`TlbRuns.RandomWritesReachEverySlotIff`), and fill the wired slot 0 when Wired
  is the last 32-bit value (`TlbRuns.RandomWriteFillsWiredIff`); a translation takes the page size from
  the PageMask register instead of the entry it hits (`TlbRuns.TranslationUsesTheEntrysSizeIff`).
- A block read fails after a missing first block, and a block write advances by the excess instead of
  the room (`BlockStreams.RomBlockStream.Read`, `BlockStreams.WriteStoresAllIff`).
- The loops of the swap streams run to `count` instead of `offset + count`
  (`ByteSwap.CompletesIffInBounds`, `ByteSwap.WritesAsMeantIff`, `ByteSwap.ReadsAsMeantIff`), and groups are counted from where a
  read starts (`ByteSwap.ReadsSliceTheImageIff`).
- LDL onto its own base register moves the address of the LDR that follows
  (`Unaligned.LdlThenLdrElsewhere`, `Unaligned.LdlThenLdrIsRightIff`).

## Model

| member | source | states |
|---|---|---|
| ZoneMap.QueryZoneTouchesExact | Source/Soft64/IO/_StreamLUT.cs:38-63 | over disjoint zones a mapped start address yields exactly the zones that meet the request, an unmapped one yields none |
| ZoneMap.QueryIsRun | Source/Soft64/IO/_StreamLUT.cs:38-63 | those zones are one slice of the map, so they come ascending and without repeats |
| ZoneMap.StreamLut.QueryZoneTouches | Source/Soft64/IO/_StreamLUT.cs:38-63 | the loop with its hit flag collects exactly that query |
| ZoneMap.StreamLut.Add | Source/Soft64/IO/_StreamLUT.cs:67-70 | inserts the zone at its place in key order; an equal key throws and changes nothing |
| ZoneMap.StreamLut.Remove | Source/Soft64/IO/_StreamLUT.cs:85-88 | deletes the key and reports whether it was there |
| ZoneMap.AddKeepsSeparatedIff | Source/Soft64/IO/UnifiedStream.cs:211-223 | an accepted zone keeps the zones disjoint if and only if it also ends at or before the next key, which the check omits |
| ZoneMap.DeleteKeepsOrder | Source/Soft64/IO/UnifiedStream.cs:257-261 | removal keeps the zones sorted, and disjoint if they were |
| ReadOnlyZones.PlanServesIff | Source/Soft64/IO/_StreamIOInterpreter.cs:28-87 | the plan of a request gives each touched zone that can be written exactly its mapped part, at its own buffer place, if and only if no touched zone can be written, or the first one can and: it is alone, or the last is read-only, or, all being writable, the buffer offset is 0 or the last zone ends inside the request, or, some being read-only, the last zone ends inside the request or the length of its stream, cast to Int32, is its part of it |
| ReadOnlyZones.PlanStaysInsideIff | Source/Soft64/IO/_StreamIOInterpreter.cs:46-58 | no transfer of a plan asks a stream for more than it holds if and only if no touched zone can be written, or the first one that can lies strictly inside the request, or it holds the whole request |
| ReadOnlyZones.ReadOnlyFirstZoneMisplaces | Source/Soft64/IO/_StreamIOInterpreter.cs:37-58 | behind a read-only first zone, the bytes of the next zone go to the buffer place of the first |
| ReadOnlyZones.ReadOnlyMiddleZoneOverruns | Source/Soft64/IO/_StreamIOInterpreter.cs:37-83 | behind a read-only zone in the middle, a cut-off last zone is asked for all its bytes, past the end of the request |
| IoEngine.ReadOnlyStreamsAreSkipped | Source/Soft64/IO/_StreamIOInterpreter.cs:37-39 | streams that cannot be written get no transfer, in either direction |
| IoEngine.ReadRefinesFlat | Source/Soft64/IO/_StreamIOInterpreter.cs:28-87 | a servable read shows the byte of the flat address space at every buffer place, and leaves gaps and memory alone |
| IoEngine.WriteRefinesFlat | Source/Soft64/IO/_StreamIOInterpreter.cs:28-87 | a servable write changes exactly the mapped addresses of the request, to the bytes of the buffer |
| IoEngine.WriteThenReadReturnsTheBytes | Source/Soft64/IO/_StreamIOInterpreter.cs:28-87 | a read after a write of the same range returns the written bytes wherever a zone is mapped |
| UnifiedStreams.RunOperation | Source/Soft64/IO/_StreamIOInterpreter.cs:28-87 | the loop that sets stream positions and transfers performs the planned transfers in order, up to the first exception |
| IoCompiler.HashLayout | Source/Soft64/IO/_StreamIOCompiler.cs:165-171 | below 2^32 and 2^16 the key is the address above 16 bits that hold the sum of count and offset, xor-ed with its high half |
| IoCompiler.KeysCollideIff | Source/Soft64/IO/_StreamIOCompiler.cs:165-171 | in those bounds two requests share a key if and only if they share the address and count + offset |
| IoCompiler.ResolvesToTheStreamIff | Source/Soft64/IO/_StreamIOCompiler.cs:144-158 | the reference search finds the stream if and only if it is new, or alone, or not the last one registered |
| IoCompiler.ReplayIsFaithfulIff | Source/Soft64/IO/_StreamIOCompiler.cs:108-163 | replaying what was emitted repeats the interpreted transfers if and only if every reference search hits |
| UnifiedStreams.StreamIoCompiler.ResolveStreamReference | Source/Soft64/IO/_StreamIOCompiler.cs:144-158 | registers a new stream at the end, or returns the index that the search yields |
| UnifiedStreams.StreamIoCompiler.RunEmitters | Source/Soft64/IO/_StreamIOCompiler.cs:108-142 | the emitting pass produces the records and references that the specification of the emission gives |
| UnifiedStreams.StreamIoCompiler.ExecuteOperation | Source/Soft64/IO/_StreamIOCompiler.cs:56-106 | a known key is replayed; a new one is counted, compiled and replayed, unless a negative stream position throws on the way, which stores and transfers nothing |
| UnifiedStreams.StreamIoCompiler.ClearCache | Source/Soft64/IO/_StreamIOCompiler.cs:47-54 | empties operations, references, set and counter |
| MemoryMap.LaterTransfersStartAtZero | Source/Soft64/IO/_StreamIOInterpreter.cs:42-83 | only the first transfer of a plan can start elsewhere than at the base of its stream, so only it can make compiling throw |
| MemoryMap.ThrowingPlanDoesNothing | Source/Soft64/IO/_StreamIOCompiler.cs:86-91 | a request whose compilation throws has the effect of the interpreter on it, which is none |
| CacheCoherence.StepIsInvisible | Source/Soft64/IO/UnifiedStream.cs:131-150 | in a coherent state an admissible request is answered as without the compiled cache, and coherence is kept |
| CacheCoherence.CacheIsInvisibleOverRuns | Source/Soft64/IO/UnifiedStream.cs:87-165 | over every admissible run all responses and the final zones, position and memory are those of the run without the cache |
| CacheCoherence.ReplayedIsInterpretedIff | Source/Soft64/IO/UnifiedStream.cs:131-165 | exactly when one request in bounds performs the transfers of the interpreter |
| CacheCoherence.EvictingItsOwnKeyServesNothing | Source/Soft64/IO/UnifiedStream.cs:140-143 | a request that evicts its own key moves nothing, then and whenever repeated |
| CacheCoherence.LastRegisteredStreamIsMistaken | Source/Soft64/IO/_StreamIOCompiler.cs:154-158 | concrete failure of the search: the second of two registered streams is compiled as the first |
| CacheCoherence.AddKeepsCoherentIff | Source/Soft64/IO/UnifiedStream.cs:211-223 | adding a zone keeps the cache coherent if and only if the zone disturbs no cached request in bounds |
| CacheCoherence.MapStaysGoodIff | Source/Soft64/IO/UnifiedStream.cs:211-223 | the same for the whole state after an accepted call |
| CacheCoherence.CachedRequestSeesAddedZoneIff | Source/Soft64/IO/UnifiedStream.cs:211-223 | a cached request performs the transfers of the new map if and only if the added zone does not disturb it |
| AddedZone.PlanStaysIff | Source/Soft64/IO/_StreamLUT.cs:38-63 | adding a zone leaves the transfers of a request as they are if and only if the zone does not disturb the request: for a writable zone, the request does not meet it; for a read-only one on disjoint zones, the request does not meet it, or meets it from a mapped address without having had its last zone clipped, or from a gap and still touches no writable zone |
| CacheCoherence.ReadShowsFlatMemory | Source/Soft64/IO/UnifiedStream.cs:87-99 | an admissible, servable read sets the buffer to the mapped bytes, zero in gaps and from an unmapped start, and advances the position by count |
| CacheCoherence.WriteChangesFlatMemory | Source/Soft64/IO/UnifiedStream.cs:117-129 | an admissible, servable write changes exactly the mapped addresses of the request and advances the position by count |
| CacheCoherence.StepKeepsSeparatedIff | Source/Soft64/IO/UnifiedStream.cs:211-265 | a request keeps the zones disjoint if and only if an accepted zone fits before the next key |
| CacheCoherence.RunKeepsSeparatedIff | Source/Soft64/IO/UnifiedStream.cs:211-297 | the zones stay disjoint all along a run if and only if every accepted zone fits before the next key |
| CacheCoherence.AscendingRunsFit | Source/Soft64/IO/UnifiedStream.cs:211-223 | runs that add zones in ascending key order meet that condition |
| MemoryMap.StepIsValid | Source/Soft64/IO/UnifiedStream.cs:87-297 | every request keeps the zones sorted and every compiled record inside the reference table |
| MapContents.MapShowsTheStream | Source/Soft64/IO/UnifiedStream.cs:211-223 | adding succeeds if and only if no zone has the key or holds it; then every byte of the stream shows from the key on and every other address is as before, else nothing has changed |
| MapContents.UnmapHidesTheStream | Source/Soft64/IO/UnifiedStream.cs:257-265 | on disjoint zones a removed key hides exactly the addresses of its zone; it reports whether the key was there, and nothing stays compiled |
| MapContents.ResetUnmapsAll | Source/Soft64/IO/UnifiedStream.cs:287-295 | after clearing no address is mapped, the position is 0, the cache is empty, and the streams are untouched |
| MapContents.OthersAreForgottenIff | Source/Soft64/IO/UnifiedStream.cs:140-143 | a compiled request forgets the operations of others if and only if more than 450 have been counted |
| MapContents.RunKeepsBounded | Source/Soft64/IO/UnifiedStream.cs:131-150 | over every run the cache holds no more operations than it has counted, and counts at most 451 |
| UnifiedStreams.UnifiedStream.Read | Source/Soft64/IO/UnifiedStream.cs:87-99 | with or without the compiler, the buffer, streams, zones, position and cache afterwards are those of the state machine that the coherence and flat-memory theorems are about; an offset outside the buffer throws and changes nothing, and the position advances by count exactly on success |
| UnifiedStreams.UnifiedStream.Write | Source/Soft64/IO/UnifiedStream.cs:117-129 | the same effect for writes, and the position advances by count exactly on success |
| UnifiedStreams.UnifiedStream.Transact | Source/Soft64/IO/UnifiedStream.cs:131-150 | query before eviction, eviction, dispatch and advance have the combined effect of one specified step |
| UnifiedStreams.UnifiedStream.QueryStreams | Source/Soft64/IO/UnifiedStream.cs:152-165 | an empty query for a compiled key, else the zones touched |
| UnifiedStreams.UnifiedStream.Add | Source/Soft64/IO/UnifiedStream.cs:211-223 | accepts a key exactly when no zone has it or holds it; the bytes of an accepted stream then show from the key on, and the cache is left alone |
| UnifiedStreams.UnifiedStream.Remove | Source/Soft64/IO/UnifiedStream.cs:257-265 | clears the cache, deletes the zone and reports whether a zone had the key |
| UnifiedStreams.UnifiedStream.Clear | Source/Soft64/IO/UnifiedStream.cs:287-295 | empties the cache and the zones, rewinds the position, and leaves the streams alone |
| DelaySlot.StepSimulatesIff | Source/Soft64/MipsR4300/Interpreter.cs:157-201 | from any state, a step that executes an instruction is one step of a (pc, next-pc) machine with conditions, targets and links defined on their own, if and only if: in a slot, it holds a plain instruction, an untaken branch that is not likely, or a transfer to the address right behind the target; outside, the condition of the handler is right or the branch leads where falling through does, and the jump mask adds nothing; with a leftover nullify flag, it is a plain instruction, a rightly decided likely branch, or a plain branch to its own slot that the handler wrongly takes |
| DelaySlot.RunSimulates | Source/Soft64/MipsR4300/Interpreter.cs:157-201 | every run whose steps are right is a run of that machine with one stutter for each nullified slot |
| DelaySlot.RunTracksIff | Source/Soft64/MipsR4300/Interpreter.cs:157-201 | from any state, a run stands where that machine stands at every one of its steps if and only if all its steps are right |
| DelaySlot.TakenIsRightIff | Source/Soft64/MipsR4300/Interpreter_Branch.cs:27-258 | every branch handler decides as the signed comparison or equality at the width of the mode does, if and only if it is not BLEZ on operands whose unsigned comparison says otherwise, nor BC1F |
| DelaySlot.BranchTargetIsRight | Source/Soft64/MipsR4300/Interpreter.cs:269-272 | a taken branch goes to the address of its slot plus four times the signed immediate, modulo 2^64 |
| DelaySlot.LinkIsRight | Source/Soft64/MipsR4300/Interpreter_Branch.cs:44-232 | a linking transfer writes the address of the instruction behind its slot to its link register, never to register 0, and to no other |
| DelaySlot.TakenBranchReachesItsTarget | Source/Soft64/MipsR4300/Interpreter.cs:157-201 | a branch that is rightly taken is followed by the instruction at pc + 4 and then by the one at pc + 4 + 4 * immediate |
| DelaySlot.RunProgresses | Source/Soft64/MipsR4300/Interpreter.cs:183-187 | no two stutters in a row, so at least half of the steps make progress |
| DelaySlot.CountCountsSteps | Source/Soft64/MipsR4300/Interpreter.cs:157-165 | after n steps Count is its start plus n modulo 2^32 |
| DelaySlot.StepKeepsInvIff | Source/Soft64/MipsR4300/Interpreter.cs:281-285 | the flag invariant survives a step if and only if it does not execute an untaken likely branch in a slot |
| DelaySlot.RunKeepsInvIff | Source/Soft64/MipsR4300/Interpreter.cs:281-285 | the flag invariant holds all along a run if and only if no step of it does that |
| DelaySlot.TransferInSlotIsDropped | Source/Soft64/MipsR4300/Interpreter.cs:157-201 | a branch or jump in a slot is dropped but its link register is written |
| DelaySlot.StaleFlagSkipsALaterSlot | Source/Soft64/MipsR4300/Interpreter.cs:157-201 | a leftover nullify flag makes the next plain branch lose its slot |
| DelaySlot.BlezFollowsArchitectureIff | Source/Soft64/MipsR4300/Interpreter_Branch.cs:105-116 | with rt = 0, BLEZ follows the signed definition if and only if the register is not negative |
| DelaySlot.CoprocessorBranchFollowsArchitectureIff | Source/Soft64/MipsR4300/Interpreter_Branch.cs:236-258 | branches on the coprocessor condition follow the architecture if and only if they are not the ones on a false condition |
| DelaySlot.JumpTargetFollowsArchitectureIff | Source/Soft64/MipsR4300/Interpreter_Branch.cs:40-51 | J and JAL reach the architectural target if and only if the slot address fits 32 bits and its bits 16 to 27 are set in the shifted field |
| Interpreters.Interpreter.DoInterpreterStep | Source/Soft64/MipsR4300/Interpreter.cs:157-201 | one call changes PC, the branch fields, the flag, Count and the data exactly as the step that the simulation theorems are about |
| Interpreters.Interpreter.BranchOn | Source/Soft64/MipsR4300/Interpreter.cs:274-279 | sets the branch fields, the slot after PC and the target of either outcome |
| Interpreters.Interpreter.BranchLikelyOn | Source/Soft64/MipsR4300/Interpreter.cs:281-285 | also sets the nullify flag to the negated condition |
| Interpreters.Interpreter.BranchTo | Source/Soft64/MipsR4300/Interpreter.cs:287-292 | sets the branch fields to the jump target |
| Interpreters.Interpreter.Call | Source/Soft64/MipsR4300/Interpreter_Branch.cs:27-258 | each handler writes the branch fields, the flag and the link register that the simulated step needs, and nothing else |
| Interpreters.Interpreter.StepMany | Source/Soft64/MipsR4300/Interpreter.cs:152-201 | n calls leave the state that the specified run gives |
| PauseProtocol.SetMeansUnsignalled | Source/Soft64/Engines/CoreTaskScheduler.cs:52-75 | with any number of controllers whose calls do not overlap, in every reachable state a set flag means an unsignalled event, and the exchange never fails |
| PauseProtocol.NoLostWakeUp | Source/Soft64/Engines/CoreTaskScheduler.cs:71-75 | under the same rule, a worker that waits while the flag is clear and all controllers are idle can always go on |
| PauseProtocol.PauseStopsTheWorker | Source/Soft64/Engines/EmulatorEngine.cs:79-93 | under the same rule, from any reachable state with the flag set the worker finishes at most the iteration in progress until a resume |
| PauseProtocol.PausedWorkerBlocks | Source/Soft64/Engines/CoreTaskScheduler.cs:104-110 | with the flag set the worker blocks within three of its own steps |
| PauseProtocol.PauseReturnsWithTheFlagSet | Source/Soft64/Engines/CoreTaskScheduler.cs:57-69 | whatever the worker does meanwhile, when the pause call of any one controller is through the flag is set |
| PauseProtocol.PauseCallRuns | Source/Soft64/Engines/CoreTaskScheduler.cs:57-69 | the undisturbed call is a possible run of the steps and has the stated effect |
| PauseProtocol.ResumeCallRuns | Source/Soft64/Engines/CoreTaskScheduler.cs:71-75 | the same for the resume call |
| PauseProtocol.ExchangeNeverFailsIff | Source/Soft64/Engines/CoreTaskScheduler.cs:57-69 | without that rule the exchange fails in no run if and only if there is at most one controller |
| PauseProtocol.OverlappingPausesFail | Source/Soft64/Engines/CoreTaskScheduler.cs:57-69 | the failing run, for any two or more controllers |
| PauseProtocol.OneControllerIsSerial | Source/Soft64/Engines/CoreTaskScheduler.cs:57-75 | a single controller keeps the rule in every run |
| PauseProtocol.CoreTaskScheduler.CheckAndSetPause | Source/Soft64/Engines/CoreTaskScheduler.cs:52-55 | exchanges the flag with SET and reports whether it was clear |
| PauseProtocol.CoreTaskScheduler.PauseThreads | Source/Soft64/Engines/CoreTaskScheduler.cs:57-69 | undisturbed, it resets the event, sets the flag and never throws |
| PauseProtocol.CoreTaskScheduler.ResumeThreads | Source/Soft64/Engines/CoreTaskScheduler.cs:71-75 | clears the flag and signals the event |
| PauseProtocol.CoreTaskScheduler.PauseWait | Source/Soft64/Engines/CoreTaskScheduler.cs:104-110 | passes if and only if the flag is clear or the event is signalled, which it consumes |
| TlbEncoding.EntryLoRoundTrip | Source/Soft64/MipsR4300/PageFrameNumber.cs:39-46 | despite the overlap of C and PFN, decoding and encoding EntryLo keeps exactly its low 31 bits |
| TlbEncoding.EntryLoFields | Source/Soft64/MipsR4300/PageFrameNumber.cs:39-46 | global, valid and dirty are bits 0 to 2, the frame number starts at bit 6, and five bits of the coherency field are its low ones |
| TlbEncoding.EntryHiRoundTrip | Source/Soft64/MipsR4300/VirtualPageNumber2.cs:29-50 | decoding and encoding EntryHi loses exactly bits 8 to 11 |
| TlbEncoding.EntryHiKeysAgreeIff | Source/Soft64/MipsR4300/VirtualPageNumber2.cs:29-50 | two registers give the same key if and only if they agree outside those bits |
| TlbEncoding.PageMaskReadBack | Source/Soft64/MipsR4300/PageSize.cs:112-118 | reading the page mask back keeps bits 14 to 25 |
| TlbEncoding.PageMaskRoundTripIff | Source/Soft64/MipsR4300/PageSize.cs:40-44 | a page mask survives the round trip if and only if it has no other bit |
| TlbEncoding.PageSizeOfMask | Source/Soft64/MipsR4300/PageSize.cs:40-44 | the mask of every power-of-two page decodes to that size, and reads back only for 4 KB |
| TlbEncoding.MapPhysicalAddsTheOffset | Source/Soft64/MipsR4300/PageFrameNumber.cs:128-139 | the physical address is PFN times size plus the page offset, for every power-of-two size |
| TlbModel.FillKeepsAgreement | Source/Soft64/MipsR4300/TLBCache.cs:204-225 | filling a slot without a duplicate keeps every live slot found under its own page and kind |
| TlbModel.FillDuplicatesIff | Source/Soft64/MipsR4300/TLBCache.cs:204-225 | on an exact index a fill raises the duplicate flag if and only if a slot of its kind already holds the page |
| TlbModel.RewritingASlotDuplicates | Source/Soft64/MipsR4300/TLBCache.cs:204-225 | so filling a slot again with its own page does |
| TlbModel.FillStaysExactIff | Source/Soft64/MipsR4300/TLBCache.cs:204-225 | the dictionaries stay free of stale keys if and only if the filled slot was empty |
| TlbModel.RemoveKeepsAgreementIff | Source/Soft64/MipsR4300/TLBCache.cs:143-148 | removing an entry keeps every live slot found unless the entry is global and a non-global slot holds the same page |
| TlbModel.RemoveLeavesNoStaleKeyIff | Source/Soft64/MipsR4300/TLBCache.cs:143-148 | it leaves no key behind if and only if the entry was not global |
| TlbModel.LookupIsScan | Source/Soft64/MipsR4300/TLBCache.cs:166-193 | on an exact index the lookup equals a linear scan of the slots, globals first |
| TlbModel.TranslationIsScan | Source/Soft64/MipsR4300/TLBCache.cs:166-202 | on an exact index without a duplicate, a translation succeeds if and only if a linear scan, globals first, finds the page of EntryHi and the frame chosen by the page-size bit is valid; then it maps by that frame, else it refills, and nothing changes |
| TlbModel.UnheldPageRefills | Source/Soft64/MipsR4300/TLBCache.cs:188-193 | a page that no slot holds refills at every address |
| TlbModel.GlobalIff | Source/Soft64/MipsR4300/TLBEntry.cs:82-85 | an entry made from the registers is global if and only if bit 0 of both EntryLo registers is set |
| TlbModel.ProbeFindsThePageIff | Source/Soft64/MipsR4300/TLBCache.cs:66-89 | on an exact index TLBP returns a slot that holds the page, of either kind, if and only if a non-global slot holds it and the lowest global slot below that one, if any, holds it too |
| TlbModel.ProbeFindsTheSlotIff | Source/Soft64/MipsR4300/TLBCache.cs:66-89 | it returns the non-global slot of the page if and only if no global slot lies below |
| TlbModel.GlobalPageIsNotFound | Source/Soft64/MipsR4300/TLBCache.cs:243-246 | a page that only a global entry holds is never found: the P bit is set |
| TlbRuns.RunKeepsInv | Source/Soft64/MipsR4300/TLBCache.cs:50-225 | over every run, direct `AddEntry` and `RemoveEntry` calls included, the index agrees with the slots while no duplicate is flagged, as long as no global entry is removed whose page a non-global slot holds |
| TlbRuns.LookupIsScanOverRuns | Source/Soft64/MipsR4300/TLBCache.cs:50-225 | over every such run that fills each slot at most once and removes no global entry the lookup equals the scan, while no duplicate is flagged |
| TlbRuns.StepStaysExactIff | Source/Soft64/MipsR4300/TLBCache.cs:91-225 | a request keeps the index exact if and only if it fills no slot, or an empty one with a page that no slot of its kind holds, and removes no global entry |
| TlbRuns.RemovalStaysExactIff | Source/Soft64/MipsR4300/TLBCache.cs:143-148 | removing an entry keeps the index exact if and only if the entry is not global |
| TlbRuns.RunStaysExactIff | Source/Soft64/MipsR4300/TLBCache.cs:50-225 | along a run the index stays exact if and only if every request is of that sort |
| TlbRuns.StepFillsItsTarget | Source/Soft64/MipsR4300/TLBCache.cs:91-117 | apart from initializing and removing, a request changes the index only by filling its own target slot |
| TlbRuns.UpdateEndsInRangeIff | Source/Soft64/MipsR4300/TLBCache.cs:280-293 | an update ends above Wired and at most 46 if and only if Wired <= 45 |
| TlbRuns.UpdatesRotate | Source/Soft64/MipsR4300/TLBCache.cs:280-293 | k updates rotate Random by k through the unwired range |
| TlbRuns.EveryUnwiredSlotIsReached | Source/Soft64/MipsR4300/TLBCache.cs:280-293 | some number of updates reaches any unwired slot up to 46 |
| TlbRuns.RandomWritesSkipEveryOtherSlot | Source/Soft64/MipsR4300/TLBCache.cs:280-293 | with an even number of unwired slots an odd number of updates always ends on a slot of the other parity |
| TlbRuns.SlotOfWriteIs | Source/Soft64/MipsR4300/TLBCache.cs:111-117 | write number w of a run of TLBWR, counted from 0, fills the slot that 2w + 1 updates lead to |
| TlbRuns.RandomWritesReachEverySlotIff | Source/Soft64/MipsR4300/TLBCache.cs:111-117 | such a run fills every unwired slot up to 46 sooner or later if and only if their number is odd |
| TlbRuns.WiredEntriesAreNeverReplaced | Source/Soft64/MipsR4300/TLBCache.cs:91-117 | no run changes a slot up to Wired, for every Wired below 2^32 - 1 and direct `AddEntry` and `RemoveEntry` calls above Wired |
| TlbRuns.RandomWriteFillsWiredIff | Source/Soft64/MipsR4300/TLBCache.cs:111-117 | a TLBWR fills a wired slot if and only if Wired is 2^32 - 1 |
| TlbRuns.WriteThenRead | Source/Soft64/MipsR4300/TLBCache.cs:119-134 | TLBWI then TLBR gives EntryHi without bits 8 to 11, 31 bits of each EntryLo and bits 14 to 25 of PageMask |
| TlbRuns.TranslationPicksTheFrame | Source/Soft64/MipsR4300/TLBCache.cs:166-202 | a hit uses the frame chosen by the page-size bit of the address and adds the page offset, by the page size of the register |
| TlbRuns.TranslationUsesTheEntrysSizeIff | Source/Soft64/MipsR4300/TLBCache.cs:166-202 | a hit, which takes the page size from the PageMask register, translates all addresses as by the size of the entry if and only if the two sizes are equal or the entry has no valid frame |
| TlbRuns.WriteThenTranslate | Source/Soft64/MipsR4300/TLBCache.cs:166-202 | with 4 KB pages a page just written is translated by its own registers, chosen by bit 12 |
| TlbRuns.DuplicateShutsDownForGood | Source/Soft64/MipsR4300/TLBCache.cs:166-179 | a duplicate shuts the TLB down at the next translation, and initializing does not undo it |
| TlbCaches.TlbCache.AddEntry | Source/Soft64/MipsR4300/TLBCache.cs:204-225 | a bad index throws; else the slot holds the entry, its dictionary has the new key or the duplicate is flagged, Random has moved on, and nothing else has changed |
| TlbCaches.TlbCache.RemoveEntry | Source/Soft64/MipsR4300/TLBCache.cs:143-148 | empties the slot and takes its page from the non-global dictionary, whatever its kind; an empty slot throws |
| TlbCaches.TlbCache.Write | Source/Soft64/MipsR4300/TLBCache.cs:91-109 | writes the registers to the slot of Index and updates Random twice; throws, changing nothing, exactly when the low byte of Index is not above Wired; does nothing when the TLB is shut down |
| TlbCaches.TlbCache.WriteRandom | Source/Soft64/MipsR4300/TLBCache.cs:111-117 | updates Random, fills the slot it names and updates Random again; nothing when the TLB is shut down |
| TlbCaches.TlbCache.Read | Source/Soft64/MipsR4300/TLBCache.cs:119-134 | updates Random and loads the four registers from a live slot, else leaves them |
| TlbCaches.TlbCache.Probe | Source/Soft64/MipsR4300/TLBCache.cs:66-89 | a page among the non-global keys puts the first slot that equals it into Index, any other page sets the P bit |
| TlbCaches.TlbCache.GetIndex | Source/Soft64/MipsR4300/TLBCache.cs:248-255 | the loop returns the first slot whose entry equals the page, or the end |
| TlbCaches.TlbCache.TranslateVirtualAddress | Source/Soft64/MipsR4300/TLBCache.cs:166-202 | duplicate shutdown, global before local lookup, refill errors and the physical address agree with the value-level translation for every address; a page in neither dictionary refills and changes nothing |
| TlbCaches.TlbCache.UpdateRandom | Source/Soft64/MipsR4300/TLBCache.cs:280-293 | counts Random up, or sends it to the slot after Wired when it is wired or passes 46 |
| BlockStreams.RomBlockStream.Read | Source/Soft64/IO/BlockStream.cs:74-118 | for any buffer, offset and count, completes exactly when the buffer has room and the first block is cached, or the position is block-aligned, or the range stays in one block; what it read is what the stream showed; blocks are only loaded; a retry after a failure in the table would yield the rest |
| BlockStreams.RomBlockStream.Write | Source/Soft64/IO/BlockStream.cs:124-165 | for any buffer, offset and count, stores exactly the bytes it got to, at the position, and nothing else, and completes exactly when the buffer has them and under the condition below |
| BlockStreams.WriteStoresAllIff | Source/Soft64/IO/BlockStream.cs:124-165 | a write stores all bytes if and only if they fit the room of the first block or the excess divides that room, with the blocks in the table |
| BlockStreams.CleanReadsReturnTheImage | Source/Soft64/IO/BlockStream.cs:74-118 | from a clean table a read returns the bytes of the image, zero beyond its end, and leaves the table clean |
| BlockStreams.RangesWithinTheImageAreInTheTable | Source/Soft64/IO/BlockStream.cs:44-50 | ranges within the image have their blocks in the table |
| BlockStreams.BlockIsInTheTableIff | Source/Soft64/IO/BlockStream.cs:44-50 | the table has exactly the blocks that start in the image or at its end |
| BlockStreams.RomBlockStream.LoadBlock | Source/Soft64/PI/_RomBlockStream.cs:42-47 | fills the block with its zero-padded slice of the image |
| BlockStreams.RomBlockStream.ClearCache | Source/Soft64/IO/BlockStream.cs:167-170 | empties every block |
| RomChecksums.AccumulatorsMeanTotals | Source/Soft64/PI/RomChecksum.cs:63-108 | after any number of turns t4 and t6 hold the exact sum of the words, t3 the xor and t5 the sum of the rotated words, with the seed; t4 never wraps |
| RomChecksums.CarryIsExact | Source/Soft64/PI/RomChecksum.cs:73-74 | the unsigned comparison counts exactly the wraps of t6 |
| RomChecksums.FirstWordIgnoresOrder | Source/Soft64/PI/RomChecksum.cs:63-108 | for every known chip the first output word is unchanged by any permutation of the words |
| RomChecksums.HashIsClosedForm | Source/Soft64/PI/RomChecksum.cs:38-132 | for every known chip, with its seed written out, the two words are given in closed form over the bytes of the image: from the exact sum, its high half, the exact sum of the rotated words, the parity, the mixed sum and one recurrence |
| RomChecksums.RolledIsRotated | Source/Soft64/PI/RomChecksum.cs:124-127 | the two shifts rotate: the bits pushed out at the top come back in at the low end |
| RomChecksums.CrcsAreTheWords | Source/Soft64/PI/RomChecksum.cs:90-137 | a hash code that spells two words has them, with their bytes in the other order, as CRC1 and CRC2 |
| RomChecksums.Crc1IgnoresOrder | Source/Soft64/PI/RomChecksum.cs:38-132 | so CRC1 is unchanged by any reordering of the words of the segment |
| RomChecksums.RomChecksum.HashCore | Source/Soft64/PI/RomChecksum.cs:38-109 | below 0x101000 bytes it throws, an unknown chip leaves the hash code, any other gets the hash code of the closed form |
| RomChecksums.RomChecksum.Accumulate | Source/Soft64/PI/RomChecksum.cs:63-108 | the loop over the boot segment ends with the accumulators of its 0x40000 words |
| CrcKernel.RoundsFeedBytes | Source/Soft64/PI/BootRom.cs:174-177 | for any register with the laws of such a table, the table loop computes the bit-serial checksum |
| CrcKernel.EightSteps | Source/Soft64/PI/BootRom.cs:176-176 | eight bit steps are one table entry xor-ed with the high bytes moved down |
| Crc32.TableEntriesAreEightSteps | Source/Soft64/PI/BootRom.cs:108-161 | all 256 table entries are their own index after eight bit steps of the reflected polynomial |
| Crc32.FreshHashIsReference | Source/Soft64/PI/BootRom.cs:163-181 | from a fresh value the loop computes CRC-32 as section 8 of RFC 1952 defines it, for every message |
| Crc32.ChunksConcatenate | Source/Soft64/PI/BootRom.cs:168-181 | hashing two chunks in turn equals hashing their concatenation |
| Crc32.OneByteChangesTheChecksum | Source/Soft64/PI/BootRom.cs:168-181 | messages of one length that differ in a single byte have different checksums |
| Crc32.DigestReadsBack | Source/Soft64/PI/BootRom.cs:183-198 | the four digest bytes read back as the value |
| Crc32.ChecksumOfAZeroByte | Source/Soft64/PI/BootRom.cs:168-190 | the single zero byte has the published checksum D202EF8D and its four bytes, highest first, as digest |
| Crc32.Crc32HashAlgorithm.HashCore | Source/Soft64/PI/BootRom.cs:168-181 | the running value afterwards is the chunk fed to it between two seed xors, which the chunk theorem is about |
| Crc32.Crc32HashAlgorithm.HashFinal | Source/Soft64/PI/BootRom.cs:183-190 | the digest reads back as the running value |
| Crc32.Crc32HashAlgorithm.ComputeHash | Source/Soft64/PI/BootRom.cs:163-190 | initializing, hashing and finishing yields the reference checksum of the buffer |
| ByteSwap.SwapPositionIsMirror | Source/Soft64/IO/ByteSwapStream.cs:142-192 | at every Int64 position the mask forms and the division form mirror it inside its group if and only if the mirror image is a position too, which fails only in the cut-off last group of 12 |
| ByteSwap.SwapPermutesIff | Source/Soft64/IO/ByteSwapStream.cs:142-192 | for every Int64 count each class permutes the positions below count if and only if its group size divides count, and is its own inverse |
| ByteSwap.SwappedReversesGroups | Source/Soft64/IO/ByteSwapStream.cs:74-103 | the position arithmetic equals reversing every group, by recursion over the groups |
| ByteSwap.CompletesIffInBounds | Source/Soft64/IO/ByteSwapStream.cs:94-97 | the loop stays in bounds if and only if the offset leaves out the odd bytes and the buffer is long enough |
| ByteSwap.ReadSwapsTheBytes | Source/Soft64/IO/ByteSwapStream.cs:74-103 | with offset 0 and whole groups a read fills the buffer with the reversed groups |
| ByteSwap.WriteSwapsTheBytes | Source/Soft64/IO/ByteSwapStream.cs:112-127 | with offset 0 and whole groups a write hands on the reversed groups |
| ByteSwap.WriteThenReadIsIdentity | Source/Soft64/IO/ByteSwapStream.cs:74-127 | a read after a completed write at the same place gives the written bytes back, at every offset |
| ByteSwap.OffsetWritesZeros | Source/Soft64/IO/ByteSwapStream.cs:112-127 | with a positive offset a write stores zeros in place of the bytes it leaves out |
| ByteSwap.WritesAsMeantIff | Source/Soft64/IO/ByteSwapStream.cs:112-127 | with whole groups, writes hand on the reversed groups of the range, for every buffer, if and only if the offset is 0 |
| ByteSwap.ReadsAsMeantIff | Source/Soft64/IO/ByteSwapStream.cs:74-103 | with whole groups, reads put the reversed groups into the range and leave the rest of the buffer, for every content of the stream, if and only if the offset is 0 |
| ByteSwap.ReadsSliceTheImageIff | Source/Soft64/IO/ByteSwapStream.cs:74-103 | reads show slices of the swapped image, for all images, if and only if they start between two groups |
| ByteSwap.ByteSwapStream.Read | Source/Soft64/IO/ByteSwapStream.cs:74-103 | throws exactly on the calls that leave a buffer, when every byte that has changed is the mirrored one; else the mirrored, zero-padded bytes fill the range and the base position advances |
| ByteSwap.ByteSwapStream.Write | Source/Soft64/IO/ByteSwapStream.cs:112-127 | throws exactly on the same calls, before the base stream has changed; else the mirrored bytes are stored at its position |
| Cartridge.DetectedIffPresentedNatively | Source/Soft64/Cartridge.cs:94-109 | an image is recognised as having an order if and only if undoing that order shows the native header |
| Cartridge.EveryOrderNormalisesAlike | Source/Soft64/Cartridge.cs:94-109 | a native image stored in any of the three orders is recognised and reads back native |
| Cartridge.OrderIsUnique | Source/Soft64/Cartridge.cs:94-109 | no image shows the native header in two orders |
| Cartridge.CorrectedReadsShowTheNativeImage | Source/Soft64/Cartridge.cs:174-182 | whole-word reads anywhere through the chosen stream show the native bytes |
| Cartridge.DetectFormatHeader | Source/Soft64/Cartridge.cs:94-109 | rewinds, reads one word and returns the order of the first four bytes, zero-padded |
| Cartridge.GetCorrectStream | Source/Soft64/Cartridge.cs:174-182 | wraps the two other orders in the swap of their group size |
| Cartridge.ReadNative | Source/Soft64/Cartridge.cs:174-182 | positioning and reading through the chosen stream yields the native bytes, for every order |
| Unaligned.SwlWordBytes | Source/Soft64/MipsR4300/Interpreter_Store.cs:171-181 | the mask and shift tables keep the bytes before the address and put the high register bytes behind them |
| Unaligned.SwrWordBytes | Source/Soft64/MipsR4300/Interpreter_Store.cs:183-193 | they put the low register bytes up to the address and keep the rest |
| Unaligned.LdlValueBytes | Source/Soft64/MipsR4300/Interpreter_Load.cs:174-190 | they load up to the end of the doubleword and keep the low register bytes |
| Unaligned.LdrValueBytes | Source/Soft64/MipsR4300/Interpreter_Load.cs:192-208 | they load up to the address and keep the high register bytes |
| Bytes.Joined | Source/Soft64/MipsR4300/Interpreter_Store.cs:179-179 | mask and shifted value are disjoint, so the addition never carries and equals an or |
| Unaligned.SwlThenSwr | Source/Soft64/MipsR4300/Interpreter_Store.cs:171-193 | SWL at a then SWR at a + 3 set exactly the guest bytes a to a + 3 to the register, for every a |
| Unaligned.SwrThenSwl | Source/Soft64/MipsR4300/Interpreter_Store.cs:171-193 | the other order does the same |
| Unaligned.LdlThenLdr | Source/Soft64/MipsR4300/Interpreter_Load.cs:174-208 | LDL at a then LDR at a + 7 load exactly the guest bytes a to a + 7, for every a |
| Unaligned.LdrThenLdl | Source/Soft64/MipsR4300/Interpreter_Load.cs:174-208 | the other order does the same |
| Unaligned.LdlThenLdrElsewhere | Source/Soft64/MipsR4300/Interpreter_Load.cs:174-208 | LDL at any a and LDR at any b, where the pair leads when the target is its own base: high bytes from a on, low bytes up to b |
| Unaligned.LdlThenLdrIsRightIff | Source/Soft64/MipsR4300/Interpreter_Load.cs:174-208 | after LDL at any a and LDR at any b the register is the doubleword at a if and only if the bytes kept from LDL are its first ones and the bytes fetched by LDR its last ones |
| Unaligned.BaseAsTargetIsRightIff | Source/Soft64/MipsR4300/Interpreter_Load.cs:174-208 | an aligned pair onto its own base is right if and only if the doubleword at the loaded address equals the one wanted |
| Unaligned.AddressIs | Source/Soft64/MipsR4300/Interpreter.cs:299-302 | the address is the one Int64 congruent to base register plus immediate modulo 2^64 |
| Unaligned.SignedBaseAddresses | Source/Soft64/MipsR4300/Interpreter.cs:299-302 | so a register below 2^63, or a negative one in two's complement, plus the immediate is the address |
| Unaligned.LoadStoreUnit.Swl | Source/Soft64/MipsR4300/Interpreter_Store.cs:171-181 | changes one aligned word of memory, at the address congruent to base plus immediate, by the merge above |
| Unaligned.LoadStoreUnit.Swr | Source/Soft64/MipsR4300/Interpreter_Store.cs:183-193 | the same for SWR |
| Unaligned.LoadStoreUnit.Ldl | Source/Soft64/MipsR4300/Interpreter_Load.cs:174-190 | two register writes, the second reading the first, load from the address congruent to base plus immediate; a reserved-instruction exception outside 64-bit mode |
| Unaligned.LoadStoreUnit.Ldr | Source/Soft64/MipsR4300/Interpreter_Load.cs:192-208 | two register writes, the second reading the first, load from the address congruent to base plus immediate; a reserved-instruction exception outside 64-bit mode |
| Unaligned.LoadStoreUnit.StoreUnalignedWord | Source/Soft64/MipsR4300/Interpreter_Store.cs:171-193 | the store pair as executed, at any address congruent to base plus immediate modulo 2^64, on the guest view of memory |
| Unaligned.LoadStoreUnit.LoadUnalignedDoubleword | Source/Soft64/MipsR4300/Interpreter_Load.cs:174-208 | the load pair as executed, at any such address, for a nonzero target other than the base |

## Left out

- The emitted IL, delegates and locks of the compiler: an operation is the list of recorded transfers.
- The indexer and the key-value-pair forms of `Add` and `Remove` on the zone map, which bypass the checks of the plain forms.
- Streams whose length changes while mapped, and wrap-around of the 64-bit stream position.
- UnifiedStreams.UnifiedStream.Read: holds for zones whose streams clip at their end; other stream kinds are not part of this model.
- Instruction fetch faults, ERET, MTC0 writes to Count, and interrupts in the interpreter step.
- Thread creation, single-stepping and task queues of the scheduler: only the flag and the event matter for the protocol. Memory is taken as sequentially consistent.
- Enumeration and change events of the TLB, and changes to a stored entry through its property setters.
- The hash code of `VirtualPageNumber2`: dictionaries compare the address-space id and page number themselves.
- BlockStreams.RomBlockStream.Write: takes the caller's buffer as a value, so it does not model a caller that changes the buffer during the call.
- Crc32.Crc32HashAlgorithm.HashCore: the range lies in the buffer, which the public hashing methods check before they call it.
- Images above 2 GB and negative positions in the block stream, where 32-bit casts of the block index would matter; the RDRAM loader of the same base class.
- `GetHashCode`, MD5 and the boot-code lookup by checksum in `BootRom`.
- `ReadByte` and `WriteByte` of the swap streams, which do not swap.
- The other two image detectors, which combine the boot-code and header checksums.
- Unaligned.LoadStoreUnit.Swl: memory is mapped at the address; TLB faults and gaps belong to the virtual memory stream, which is not part of this model.
- Unaligned.LoadStoreUnit.Swr: the same.
- Unaligned.LoadStoreUnit.Ldl: the same.
- Unaligned.LoadStoreUnit.Ldr: the same.
- LWL and LWR, which store instead of loading; SDL and SDR, of which the second uses the shifts of the first; aligned loads and stores.
- Most arithmetic, trap and floating-point handlers, the user interface, debugging, snapshots and logging.
