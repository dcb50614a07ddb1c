# Verified model of the Julia-to-Cranelift compiler and its runtime

This project models three connected parts of the repository and proves what they are for.

**The lowering.** `JuliaIR` gives a meaning to Julia's optimised SSA form (phi nodes, integer calls,
checked pairs, pi nodes, gotos, returns) over mathematical integers; `Machine` gives one to the part of
Cranelift IR that is emitted (blocks with parameters, jumps with arguments, wrapping words).
`Lowering` is the emitter and builder between them, as functions on the builder's state, and `Emitter`
runs the same steps in place on one object. `Simulation` proves that the emitted function does what the
program does, for every well-formed program, every input and every number of steps; `Progress` adds that
nothing is left open when phis are assigned on all edges. `Verifier` states what the Cranelift verifier
asks of a function, in terms of the function alone; `Soundness` proves that a function which passes never gets
stuck, and `ValidCode`, `Validity` and `ValidFunction` that what is emitted passes (a rejected function would
be replaced by a stub that traps). `BlockShape`, `EdgeAgreement`, `TrackedScan`, `BlockEndings` and
`FailedStatements` prove what holds of *any* laid-out program, whatever its operands name and however many of
its statements fail to lower; `Coercion` what its jumps and returns do with registers of other widths.
`Worklist`, `Finalization` and `ModuleCompiler` are the loop that compiles a
whole call graph into one module, and when that module is written.

**Scalars and layout.** `CheckedArith` and `Scripts`/`ScriptProofs` are the branch-free overflow flags,
at every width; `RegisterStructs` the shift-and-OR packing of small structs, and `StructLowering` the
instructions of mixed widths that do it; `FieldMemory` the stores that are wider than the fields they write;
`ConstTables` constant dictionaries.

**The runtime heap.** `Arena` is the bump allocator, `Heap` byte-addressed memory on top of it,
`Arrays`/`ArrayOps`/`ArrayRuns` growable arrays refined to plain sequences, `ResizeStride` what `resize!`
does to them as compiled and `ElementStores` what registers of any width do to their elements, `Strings`
concatenation, `Dictionaries` the objects rebuilt from constant dictionaries and `Caches` the symbol and
constant tables. `JointRuns` is all of them on one heap, with resets. `GCRuntime` is the runtime as one
mutable object. `Scenarios` are short runs from the empty heap that reach what some of the exact conditions
describe.

How to read it: a theorem about runs (`Simulation.LoweringPreservesMeaning`, `ArrayRuns.RunRefines`,
`JointRuns.RunSound`, `Arena.RunSafe`, `Worklist.CompilesReachable`) rests on one lemma per step,
and each step on small lemmas about single instructions or single stores. Widths are parameters: the
32- and 64-bit statements are instances. Addresses the system allocator would return are parameters of
the allocating operations, constrained only by the allocator's promise (`Arena.FreshBlock`).

Where the code falls short of its own description, the code is modelled as it is, and a lemma says for
exactly which inputs the description holds, beside one concrete input for which it does not:

- the signed remainder's flag (`CheckedArith.SremFlagExact`; one modulo one, `SremFlagsOneByOne`);
- a conditional whose block lists fewer than two successors (`TrackedScan.EdgesAgreeExactly`, read off the
  program; `EdgeAgreement.DegenerateExample`);
- registers wider than their field when packed (`RegisterStructs.RoundTripExactly`, `WideFieldLost`);
- pointer-typed members inlined in short places, and byte arrays (`FieldMemory.SurvivesExactly`,
  `InlinedPointerLost`, `ElementsKeptExactly`, `ByteArrayClobbers`): the builder's store ignores its
  width argument, although its callers pass the memory width;
- the same stores at the end of an object (`FieldMemory.ObjectStaysExactly`; a `Bool` in the last of eight
  bytes, `TrailingBoolSpills`) and of an array (`ElementStores.AssignsExactly`; the last of sixteen bytes,
  `Scenarios.LastByteSpills`);
- compaction past the end of an array that has been compacted before (`ArrayOps.CompactInsideExactly`; a
  one-element array compacted twice, `Scenarios.DriftReached`);
- `resize!`, whose call site passes stride 8 for every element type (`ResizeStride.GrowsExactly`,
  `ShrinksExactly`, `ShrinksAnywhereExactly`; a hundred bytes shrunk to ten beside an array of one word,
  `Scenarios.ResizeDamages`);
- the empty string in a constant dictionary (`ConstTables.TableSurvivesExactly`, `EmptyStringLost`);
- an export whose IR was found at the call site but not when it was compiled (`Finalization.CompileNative`,
  for every name passed to `compile_native`, which also needs the entry to be emitted whole; a callee without
  IR, `VanishingIRFails`, and an abandoned entry, `AbandonedFails`). Direct callers of the module emitter, who
  choose the entry's symbol freely, also fail with the name of a generated function or of a symbol that the
  compilation declares (`FinalizesExactly`; `__compiled_fn_2_callee`, `CollisionFails`, and `__jl_type_tag`,
  `TakenFails`); `compile_native` puts `__jl_entry_` before every name and does not.

A reset frees every block under alignment sixteen, whatever it was allocated under (`Arena.ResetFrees`).
All of the runtime's requests are aligned to sixteen, so no run of it meets the difference
(`Arena.RunFreesAsAllocated`).

## Model

| member | source | states |
|---|---|---|
| CheckedArith.AddSignedExact | NativeCodegen/src/builder_emit.jl:1703-1710 | at every width, the xor/and sign test is set exactly when the signed sum is not representable |
| CheckedArith.SubSignedExact | NativeCodegen/src/builder_emit.jl:1713-1719 | the same for the signed difference |
| CheckedArith.AddUnsignedExact | NativeCodegen/src/builder_emit.jl:1710-1712 | the unsigned carry test is exact |
| CheckedArith.SubUnsignedExact | NativeCodegen/src/builder_emit.jl:1720-1722 | the unsigned borrow test is exact |
| CheckedArith.SafeDivisor | NativeCodegen/src/builder_emit.jl:1744-1746 | the divisor that is used is never 0 nor, when signed, -1, so the guarded division cannot trap |
| CheckedArith.MulExact | NativeCodegen/src/builder_emit.jl:1723-1758 | the multiplication's flag, found by dividing the wrapped product, is set exactly when the true product is out of range, signed and unsigned |
| CheckedArith.SremFlagExact | NativeCodegen/src/builder_emit.jl:1724-1751 | the remainder's reuse of that formula agrees with its overflow condition on exactly the listed operands |
| CheckedArith.SremFlagsOneByOne | NativeCodegen/src/builder_emit.jl:1724-1751 | one modulo one is flagged as an overflow at every width |
| JuliaIR.Ranges | NativeCodegen/src/builder_emit.jl:55-64 | the numbers each type holds, and wrap-around to them |
| JuliaIR.EdgeFromFirst | NativeCodegen/src/builder_emit.jl:1014-1032 | a phi takes its operand from the first edge that comes from the predecessor, and none if there is none |
| ScriptProofs.CheckedCorrect | NativeCodegen/src/builder_emit.jl:1689-1763 | the emitted instruction sequences, run on representations of any two values, run to their end and leave the wrapped result and the exact flag |
| ScriptProofs.CallCorrect | NativeCodegen/src/builder_emit.jl:1689-1763 | the sequences of plain calls leave the representation of Julia's result |
| ScriptProofs.CallFaults | NativeCodegen/src/builder_emit.jl:1729-1732 | the only trap is a remainder by zero, on its first instruction, where Julia throws |
| ScriptProofs.RemainderFlag | NativeCodegen/src/builder_emit.jl:1724-1758 | the flag that the emitted remainder leaves is never set for unsigned operands, and for signed ones says whether the quotient overflows on exactly the listed operands |
| Relation.RemainderPairRun | NativeCodegen/src/builder_emit.jl:1759-1764 | a remainder used directly is tracked as its value, and as the pair of that value and that flag |
| EmitRun.OpsRun | NativeCodegen/src/builder_emit.jl:1661-1676 | an emitted table leaves its values under the ids it returns and writes no other id |
| StrictSsa.VisitedSince | NativeCodegen/src/builder_emit.jl:958-965 | on a path of a strict program a dominator has been visited since its own dominator was |
| StrictSsa.CurrentAtUse | NativeCodegen/src/builder_emit.jl:958-965 | wherever a name that shares another value's id is in scope, it is not older than that value |
| StrictSsa.CoherentStep | NativeCodegen/src/builder_emit.jl:958-965 | executing a statement keeps shared names up to date |
| StrictSsa.CoherentEnter | NativeCodegen/src/builder_emit.jl:958-965 | entering a block keeps shared names up to date |
| Tracking.ValueTracks | NativeCodegen/src/builder_emit.jl:798-965 | a well-formed statement is emitted without error, and what was tracked stays tracked |
| Relation.Readable | NativeCodegen/src/builder_emit.jl:1093-1098 | an operand in scope resolves to an id that holds its value, or zero if a phi left it undefined |
| Relation.ValueRun | NativeCodegen/src/builder_emit.jl:798-965 | the emitted code of a statement does what the statement does |
| Edges.PhiArgsTracks | NativeCodegen/src/builder_emit.jl:1010-1046 | the argument list of an edge has the phis' length, order and register types |
| Edges.PhiArgRun | NativeCodegen/src/builder_emit.jl:1014-1043 | the argument for a phi holds its operand's value, and zero on an unassigned or missing edge |
| Edges.BindPhis | NativeCodegen/src/builder_emit.jl:676-689 | binding the passed values to block parameters is evaluating all phis at once |
| Entry.PreparedTracks | NativeCodegen/src/builder_emit.jl:676-689 | before the first block every phi is tracked, under a parameter id no other value shares |
| BlockRun.CondTargets | NativeCodegen/src/builder_emit.jl:972-982 | a well-formed conditional falls through to the next block, whichever way round its successors are listed |
| BlockRun.TermRun | NativeCodegen/src/builder_emit.jl:902-1005 | an emitted terminator leaves the block as the Julia terminator does, passing the target's phi values |
| BlockRun.BrifRun | native-builder/src/builder.rs:363-415 | the branch takes the fall-through side with its arguments exactly when the condition is not zero |
| Simulation.StmtsRun | NativeCodegen/src/builder_emit.jl:692-769 | running a block's code from any statement ends as running the Julia block does |
| Simulation.Compiles | NativeCodegen/src/builder_emit.jl:674-776 | every well-formed program compiles, and each block's final code is the code emitted for it |
| Simulation.EntryStep | native-builder/src/builder.rs:103-130 | the synthetic entry block leads, without arguments, to the start of the Julia program |
| Simulation.StepMatches | NativeCodegen/src/builder_emit.jl:674-776 | matching states step to matching states |
| Simulation.LoweringPreservesMeaning | NativeCodegen/src/builder_emit.jl:674-776 | for every well-formed program, arguments and number of steps, the emitted function is where the program is |
| Progress.LoweringDecides | NativeCodegen/src/builder_emit.jl:674-776 | with phis assigned on every edge no run is left open: both return the same value, both stop, or both go on |
| ValidCode.OpsSane | NativeCodegen/src/builder_emit.jl:1661-1676 | an emitted table uses only values defined before, at agreeing types |
| Validity.ValueSturdy | NativeCodegen/src/builder_emit.jl:798-965 | a statement's code uses only values that are available in its block, and what it tracks is available there |
| Validity.TermSturdy | NativeCodegen/src/builder_emit.jl:902-1005 | so does a terminator's, and its arguments have its targets' parameter types |
| Validity.TermInto | NativeCodegen/src/builder_emit.jl:934-1005 | a terminator branches only to blocks of its Julia block's successors |
| ValidFunction.DominanceCarries | NativeCodegen/src/builder_emit.jl:674-776 | a block that dominates another in the Julia program does so along the emitted branches |
| ValidFunction.CompiledCodeVerifies | native-builder/src/builder.rs:690-708 | the function compiled for any well-formed program passes every check of the verifier: each block ends in its only terminator, none branches to the entry block, each value has one definition, which dominates its uses along the emitted branches, and types and arities agree; so it is never replaced by the trapping stub. Its branches are the Julia program's |
| Soundness.VerifiedRuns | native-builder/src/builder.rs:690-708 | a function that passes these checks never gets stuck, on any arguments, however long it runs, and returns values of its result type |
| Soundness.CompiledRuns | native-builder/src/builder.rs:690-708 | so it is for what is compiled from any well-formed program, also where the simulation leaves the machine free |
| Gcd.EuclidCompiled | NativeCodegen/src/builder_emit.jl:674-776 | Euclid's loop, whose phis read each other, is such a program |
| BlockShape.BlockCompletes | NativeCodegen/src/builder_emit.jl:698-769 | an emitted block has exactly one terminator, at its end, and changes no other block |
| BlockShape.AllBlocksComplete | NativeCodegen/src/builder_emit.jl:698-769 | so has every block of a compiled function, whichever statements failed |
| EdgeAgreement.PhiArgsCount | NativeCodegen/src/builder_emit.jl:1010-1046 | collecting arguments fails exactly when a phi's operand was never tracked; otherwise there is one per phi |
| EdgeAgreement.TerminatorAgrees | NativeCodegen/src/builder_emit.jl:934-1005 | an emitted terminator has its targets' arities exactly when it is not a one-successor conditional onto a phi |
| EdgeAgreement.EdgesAgree | NativeCodegen/src/builder_emit.jl:674-776 | in any laid-out program that compiles, dropped terminators and fallbacks included, a block's last instruction has its targets' arities exactly when it is not the block's own one-successor conditional onto a phi |
| EdgeAgreement.NoneDegenerate | NativeCodegen/src/builder_emit.jl:674-776 | without such conditionals every block's last instruction has its targets' arities |
| EdgeAgreement.ResolvesCompiles | NativeCodegen/src/builder_emit.jl:674-776 | a program whose terminators and phi edges name earlier values compiles, and its blocks end in their own terminators |
| EdgeAgreement.DegenerateExample | NativeCodegen/src/builder_emit.jl:983-985 | a program with a one-successor conditional compiles to a branch that lacks an argument |
| TrackedScan.CompilesExactly | NativeCodegen/src/builder_emit.jl:674-776 | a laid-out program compiles if and only if the scan of its statements finds no block that needs a jump whose arguments were never tracked |
| TrackedScan.EdgesAgreeExactly | NativeCodegen/src/builder_emit.jl:674-776 | for every laid-out program the scan passes, a block's last instruction has its targets' arities if and only if the block's first terminator is not a one-successor conditional onto a phi whose operands the scan tracks |
| TrackedScan.UntrackedExample | NativeCodegen/src/builder_emit.jl:752-769 | such a conditional on a value that was never tracked is replaced by a jump that agrees |
| BlockEndings.BlocksEndAs | NativeCodegen/src/builder_emit.jl:692-769 | in every laid-out program that compiles, a block ends in its own first terminator, with its own targets, if the scan finds that it can be emitted; otherwise in a jump to its only successor; otherwise in a trap |
| BlockEndings.LostReturnTraps | NativeCodegen/src/builder_emit.jl:767-769 | a function that returns a value that was never tracked compiles to a trap |
| FailedStatements.FailuresAreZero | NativeCodegen/src/builder_emit.jl:737-745 | in every laid-out program that compiles, each statement that is reached and fails is tracked to the end as a zero of its own register type, defined in its block |
| Coercion.JumpRun | native-builder/src/builder.rs:336-357 | a jump with registers of any width arrives with every argument zero-extended or reduced to its parameter's width, and surplus ones unchanged |
| Coercion.BranchRun | native-builder/src/builder.rs:363-415 | a branch on a register of any integer width goes by its low byte, and so do its arguments |
| Coercion.ReturnsRun | native-builder/src/builder.rs:420-430 | a return gives its register at the width of the function's result |
| Coercion.NothingReturned | NativeCodegen/src/builder_emit.jl:902-932 | returning nothing returns zero |
| Emitter.Builder.PackStruct | NativeCodegen/src/builder_emit.jl:4089-4116 | the loop over fields emits, in place, the packing whose run is proved about |
| Emitter.Builder.ReadField | NativeCodegen/src/builder_emit.jl:2942-2994 | a field access emits, in place, the unpacking whose run is proved about |
| Emitter.Builder.GetPhiArgs | NativeCodegen/src/builder_emit.jl:1010-1046 | the loop over the target's statements returns one id per phi, in order, or fails on an untracked operand, and leaves the builder where the recursive specification says |
| Emitter.Builder.CoerceArgs | native-builder/src/builder.rs:336-357 | the loop extends or reduces each argument to its parameter's type, by position, and leaves surplus arguments alone |
| Emitter.Builder.Table | NativeCodegen/src/builder_emit.jl:1661-1676 | emitting a table entry by entry gives the ids and the builder state that its run is proved about |
| Emitter.Builder.Value | NativeCodegen/src/builder_emit.jl:798-965 | a statement's emission, with its early exits on errors, leaves exactly the specified state, partial output included |
| Emitter.Builder.Block | NativeCodegen/src/builder_emit.jl:692-769 | a block's emission ends in its own terminator, a jump to its only successor or a trap, or is abandoned, exactly where the specification is |
| Emitter.Builder.CompileFunction | NativeCodegen/src/builder_emit.jl:674-776 | the object ends holding the compiled function the simulation is about, or reports that it was abandoned |
| Worklist.GeneratedInjective | NativeCodegen/src/builder_emit.jl:547 | generated names differ for different counters, whatever the methods are called |
| Worklist.DigitsDecimal | NativeCodegen/src/builder_emit.jl:547 | the counter in a generated name is written in decimal |
| Worklist.RequestsFollow | NativeCodegen/src/builder_emit.jl:542-550 | requests enqueue each new callee once, keep all that was known, and declare exactly the callees' names |
| Worklist.ProcessInv | NativeCodegen/src/builder_emit.jl:583-595 | compiling one item keeps the worklist's invariant |
| Worklist.MeasureDrops | NativeCodegen/src/builder_emit.jl:583-595 | and brings the loop closer to its end |
| Worklist.CompilesReachable | NativeCodegen/src/builder_emit.jl:542-595 | the loop ends having compiled exactly the least closed part of the call graph, each member once |
| Finalization.DrainedOrder | NativeCodegen/src/builder_emit.jl:542-595 | the loop compiles methods in the order in which a breadth-first walk of the call graph first requests them, and numbers them in that order |
| Finalization.NamesDistinct | NativeCodegen/src/builder_emit.jl:542-581 | in the finished module two methods share a name exactly when one is the entry and the other's number and method name spell the entry's name |
| Finalization.FinalizesExactly | native-builder/src/builder.rs:657-712 | for any entry symbol, an object is written if and only if the entry is emitted whole, its symbol is not one the compilation declares, and among the methods it leads to exactly those whose generated name is not the entry's own still have IR when compiled |
| Finalization.FinalizesForOwnName | native-builder/src/builder.rs:657-712 | with an entry symbol that is neither generated nor declared: if and only if the entry is emitted whole and every reachable method still has IR |
| Finalization.CompileNative | NativeCodegen/src/NativeCodegen.jl:83-87 | so it is for every name given to the repository's entry point, whatever symbols the compilation declares |
| Finalization.VanishingIRFails | NativeCodegen/src/builder_emit.jl:2239-2246 | a two-method graph whose callee's IR has vanished is not written, under any name |
| Finalization.AbandonedFails | NativeCodegen/src/builder_emit.jl:592 | an entry that is not emitted whole is not written, under any name, although its symbols would all be defined |
| Finalization.CollisionFails | NativeCodegen/src/builder_emit.jl:579-581 | without the prefix: an entry named as its first callee will be is defined twice |
| Finalization.TakenFails | native-builder/src/builder.rs:616-628 | without the prefix: an entry named like a runtime function of another signature cannot be defined |
| ModuleCompiler.Compiler.Finalize | native-builder/src/builder.rs:657-712 | the loop over functions and the check of exports decide exactly whether the module finalises |
| ModuleCompiler.Compiler.EmitModule | NativeCodegen/src/builder_emit.jl:556-606 | the loop ends in the finished state those theorems are about, and an object is written exactly when they say; it stops early if and only if the entry does not compile |
| RegisterStructs.ExtractOr | NativeCodegen/src/builder_emit.jl:4112-4113 | any window of bits of an OR is the OR of the windows |
| RegisterStructs.AndMask | native-backend/src/runtime/gc.rs:39 | masking with a power of two less one is the remainder |
| RegisterStructs.PackStruct | NativeCodegen/src/builder_emit.jl:4089-4116 | the loop over fields, once all have the register's width, computes the packed word that the round trip is about |
| RegisterStructs.RoundTrip | NativeCodegen/src/builder_emit.jl:2942-2994 | every field of every non-overlapping layout comes back from the packed word, in whatever order it was packed |
| RegisterStructs.RoundTripExactly | NativeCodegen/src/builder_emit.jl:4089-4116 | all fields of any layout come back if and only if each register fits its field or the field is the whole struct |
| RegisterStructs.PackedField | NativeCodegen/src/builder_emit.jl:4103-4113 | the packed word holds each field at its byte offset |
| RegisterStructs.PackedBits | NativeCodegen/src/builder_emit.jl:4103-4113 | whatever the registers hold and however fields overlap, a bit of the packed word is set if and only if some field has it set, counted from its byte offset |
| RegisterStructs.WideFieldLost | NativeCodegen/src/builder_emit.jl:4089-4116 | a register with a ninth bit set does not come back from a one-byte field |
| StructLowering.PackRun | native-builder/src/builder.rs:239-265 | the emitted packing, run on fields of either register width with the builder's extensions, leaves the packed word in sixty-four bits |
| StructLowering.UnpackRun | NativeCodegen/src/builder_emit.jl:2942-2994 | the emitted field access, on an object of either width, leaves the unpacked field; its sign extension is never emitted |
| StructLowering.PackUnpackRun | NativeCodegen/src/builder_emit.jl:4089-4116 | packing and then reading a field, as compiled, gives the field back |
| FieldMemory.ConstructInPlace | NativeCodegen/src/builder_emit.jl:4159-4168 | the loop of whole-register stores leaves an array of bytes as the survival theorem assumes |
| FieldMemory.SurvivesExactly | NativeCodegen/src/builder_emit.jl:4159-4168 | a constructed field reads back modulo its memory width, for all contents, if and only if no later store overlaps its bytes |
| FieldMemory.NaturalSurvives | NativeCodegen/src/builder_emit.jl:3939-3948 | over-wide stores in offset order lose none of the object's own members that have places of their memory width |
| FieldMemory.NaturalReads | NativeCodegen/src/builder_emit.jl:3026-3036 | in a natural layout every member of at most eight bytes reads back exactly the value it was given |
| FieldMemory.SlotWidths | NativeCodegen/src/builder_emit.jl:3026-3036 | the width a member is loaded at is the least of one, two, four and eight bytes that holds it; the register stored has four bytes for a scalar that fits and eight otherwise |
| FieldMemory.ObjectStaysExactly | NativeCodegen/src/builder_emit.jl:3131-3147 | an object's stores leave everything behind its sixteen-byte slot alone, for all contents, if and only if each register ends inside the slot |
| FieldMemory.TrailingBoolSpills | NativeCodegen/src/builder_emit.jl:3131-3147 | a Bool in the last of eight bytes is stored into the next object |
| FieldMemory.InlinedPointerLost | NativeCodegen/src/builder_emit.jl:3026-3036 | a pointer-typed member in a three-byte place does not survive |
| FieldMemory.AssignKeepsExactly | NativeCodegen/src/builder_emit.jl:3131-3147 | assigning one field keeps another, for all contents, if and only if the register's bytes miss it |
| FieldMemory.ElementsKeptExactly | native-builder/src/builder.rs:302-305 | assigning an element keeps all others if and only if the register is no wider than the stride |
| ElementStores.AssignsExactly | native-builder/src/builder.rs:302-305 | in any world, an assignment through a register of any width does its work and nothing else, for all contents, if and only if the register ends in the buffer and is no wider than the stride, or ends in the buffer behind the last element |
| Scenarios.LastByteSpills | NativeCodegen/src/builder_emit.jl:3339-3404 | a reachable assignment of the last of sixteen bytes clears the type tag behind the buffer |
| FieldMemory.ByteArrayClobbers | NativeCodegen/src/builder_emit.jl:3486-3489 | assigning a byte can change the next one |
| FieldMemory.ZeroFillAbsorbed | NativeCodegen/src/builder_emit.jl:4145-4156 | the zero fill clears the object, and its overrun stays in the object's sixteen-byte slot |
| FieldMemory.SelectChain | NativeCodegen/src/builder_emit.jl:2785-2797 | the select chain returns component idx for every idx in range, and the last one otherwise |
| ConstTables.Serialize | NativeCodegen/src/builder_emit.jl:387-400 | the loop produces the concatenation of the slots' length-prefixed entries |
| ConstTables.Parse | native-backend/src/runtime/gc.rs:321-338 | the rebuilding loop, on any bytes, stops or yields exactly the walk that the round trip is about |
| ConstTables.RoundTrip | native-backend/src/runtime/gc.rs:321-338 | parsing a serialised table gives back every slot, empty strings as null, and consumes exactly its bytes |
| ConstTables.TableSurvivesExactly | native-backend/src/runtime/strings.rs:22-24 | parsing a serialised table gives the table back if and only if no filled slot holds the empty string |
| ConstTables.EmptyStringLost | native-backend/src/runtime/gc.rs:328-329 | an empty string comes back as null |
| ConstTables.LengthOfAnyBytes | native-backend/src/runtime/gc.rs:326-327 | of any four bytes: little-endian, and zero if the top bit is set |
| ConstTables.KeyIndex | NativeCodegen/src/interp.jl:69-80 | the scan finds the first filled slot with the key, or none |
| ConstTables.GetByScan | NativeCodegen/src/interp.jl:69-80 | the scan computes the finite map's lookup |
| ConstTables.GetBySelects | NativeCodegen/src/builder_emit.jl:2307-2321 | so does the chain of selects, over the entries in any order |
| Strings.Equal | NativeCodegen/src/interp.jl:87-96 | the byte loop decides equality |
| Strings.RawEffect | native-backend/src/runtime/strings.rs:20-34 | raw bytes become null exactly for null data or a negative length, and otherwise a new string of those bytes, with nothing else changed |
| Strings.ConcatEffect | native-backend/src/runtime/strings.rs:64-80 | a concatenation is a new string with both operands' bytes, length word and terminator, and nothing else has changed |
| Strings.ConcatNull | native-backend/src/runtime/strings.rs:67-69 | a null operand on either side gives null and changes nothing |
| Strings.ConcatAll | NativeCodegen/src/builder_emit.jl:2072-2081 | the fold concatenates any number of operands and leaves each as it was |
| Arena.Bump | native-backend/src/runtime/gc.rs:38-63 | an allocation panics exactly when a fresh block is needed and no layout, rounded up to the alignment, can describe it; the retry recurs at most once |
| Arena.DescribableRounds | native-backend/src/runtime/gc.rs:52 | a layout can be described if and only if the size rounded up to the alignment is at most the largest signed word |
| Arena.BumpSafe | native-backend/src/runtime/gc.rs:38-63 | a grant is aligned, not null, inside one live block, apart from every earlier grant, and accounted for |
| Arena.OneBlockAtMost | native-backend/src/runtime/gc.rs:50-61 | at most one block is opened, only when the current one is exhausted |
| Arena.ZeroSizeIsNull | native-backend/src/runtime/gc.rs:38-49 | a zero-size request on an empty arena gives null |
| Arena.ResetFrees | native-backend/src/runtime/gc.rs:65-74 | a reset frees each block once, under its own layout if and only if that was aligned to sixteen |
| Arena.RunFreesAsAllocated | native-backend/src/runtime/gc.rs:65-74 | after any calls aligned to sixteen, a reset frees each block under the layout it was allocated with |
| Arena.RunSafe | native-backend/src/runtime/gc.rs:36-91 | after any calls, grants lie in live blocks without overlap and usage is the sum of their sizes |
| Arena.BumpArena.Alloc | native-backend/src/runtime/gc.rs:38-63 | the arena object moves to the state, and returns the address, that the invariant is about; a panic leaves it unchanged |
| Arena.BumpArena.FreeAll | native-backend/src/runtime/gc.rs:65-74 | the arena object is empty afterwards, and the blocks freed are all of its blocks, in order |
| ArrayOps.GrowEffect | native-backend/src/runtime/gc.rs:622-668 | growth keeps the old elements as a prefix, re-establishes the Memory object with its length and its old type tag, and changes only the header and a new region |
| ArrayOps.DelEffect | native-backend/src/runtime/gc.rs:673-698 | deletion drops exactly that many elements from the end, or all, zeroes what they occupied, and updates both length words |
| ArrayOps.CompactEffect | NativeCodegen/src/builder_emit.jl:3059-3110 | the size store followed by the clamped pointer store drops exactly delta elements from the front |
| ArrayOps.CompactInsideExactly | NativeCodegen/src/builder_emit.jl:3075-3110 | for any delta the clamp keeps the pointer in the buffer if and only if the stated bound holds |
| ArrayOps.AssignEffect | NativeCodegen/src/builder_emit.jl:3339-3404 | storing a register no wider than the stride replaces that element's first bytes, and nothing else; `ElementStores.AssignsExactly` has all widths |
| ArrayOps.WrapperEffect | native-backend/src/runtime/gc.rs:587-613 | a new array object has the elements, Memory object, type tag and lengths it was given, a negative length being zero |
| ArrayOps.MemoryEffect | native-backend/src/runtime/gc.rs:483-504 | a new Memory object has its type tag and its length in its two words, and nothing else has changed |
| ArrayOps.NullArray | native-backend/src/runtime/gc.rs:590-630 | a null array is left alone, and a null type makes none |
| ArrayRuns.NewObjects | native-backend/src/runtime/gc.rs:587-613 | in a run, the array object and the Memory behind a new array have the tags and lengths they were given |
| ResizeStride.GrowsExactly | NativeCodegen/src/builder_emit.jl:2108-2112 | growing by `resize!` keeps the old elements, for all contents, if and only if they are no wider than eight bytes or there are none; when the copy reads inside the old buffer, and when the elements fit the new one, exactly; other arrays are kept |
| ResizeStride.ShrinksExactly | NativeCodegen/src/builder_emit.jl:2108-2112 | shrinking by `resize!` in any world keeps the front and touches nothing else if, and unless it hits the array's own header only if, eight bytes an element fit the buffer and the elements that remain are no wider |
| ResizeStride.ShrinksAnywhereExactly | NativeCodegen/src/builder_emit.jl:2108-2112 | over all worlds and contents: if and only if |
| Scenarios.ResizeDamages | native-backend/src/runtime/gc.rs:701-716 | a reachable `resize!` of one array zeroes another's element and empties it |
| Scenarios.DriftReached | NativeCodegen/src/builder_emit.jl:3075-3110 | a reachable one-element array leaves its buffer at its second compaction |
| ArrayRuns.OtherKept | native-backend/src/runtime/gc.rs:622-698 | an operation confined to one array and a new region leaves every other array as it was |
| ArrayRuns.StepRefines | native-backend/src/runtime/gc.rs:587-716 | each operation on the heap does on the visible elements what it does on plain sequences |
| ArrayRuns.RunRefines | native-backend/src/runtime/gc.rs:587-716 | so does every run over any number of arrays, with every array inside its live buffer throughout |
| Caches.InternOK | native-backend/src/runtime/gc.rs:262-289 | an interned name is in the table, with its bytes, at the address returned |
| Dictionaries.DictionaryEffect | native-backend/src/runtime/gc.rs:300-362 | a dictionary built from the image has its slots, key and value columns and type tag, each string column an array of pointers to tagged strings of its own, all in new regions; nothing else has changed |
| Dictionaries.DictionaryWords | native-backend/src/runtime/gc.rs:349-360 | word by word: the counters of deletions, entries, age, first slot and longest probe in their places, and the lengths and data pointers of its Memory objects |
| Dictionaries.DictionaryHolds | native-backend/src/runtime/gc.rs:317-340 | a string column built from a serialised table holds that table's strings slot by slot, and null for empty slots and empty strings |
| Dictionaries.DictionaryIsLive | native-backend/src/runtime/gc.rs:77-86 | all pointers inside a dictionary lie in live blocks |
| Caches.TableSees | native-backend/src/runtime/gc.rs:120-149 | an array object over read-only data has exactly the read-only elements, at any stride, and none for a negative length |
| Caches.FetchOK | native-backend/src/runtime/gc.rs:109-173 | a string, byte copy, array object or dictionary over read-only data has its blob's contents and is remembered; a second request changes nothing |
| Caches.FetchReturns | native-backend/src/runtime/gc.rs:109-173 | a fetch returns null exactly at address zero, dictionaries apart, and for a copy of no bytes, and then changes nothing; otherwise the object, new or not, has the blob's contents word by word |
| Caches.CachedLive | native-backend/src/runtime/gc.rs:77-86 | cached pointers lie in live blocks, and so do the pointers inside cached dictionaries |
| JointRuns.ArrayFrames | native-backend/src/runtime/gc.rs:587-716 | no array operation touches a region that no array owns |
| JointRuns.StepSound | native-backend/src/runtime/gc.rs:36-91 | each operation of any kind does its own work and leaves the other kinds' objects as they were |
| JointRuns.RunSound | native-backend/src/runtime/gc.rs:77-86 | so does every run of arrays, strings, symbols, constants, dictionaries and resets on one heap; a reset forgets all at once |
| JointRuns.StringsLast | native-backend/src/runtime/strings.rs:64-80 | until the next reset a string keeps its bytes at its address through any operations |
| JointRuns.CachesLive | native-backend/src/runtime/gc.rs:77-86 | no cached pointer, and no pointer inside a cached dictionary, is stale in any state of any such run |
| JointRuns.SymbolsByIdentity | native-backend/src/runtime/gc.rs:262-289 | between resets of any such run, interned addresses are equal if and only if names are |
| JointRuns.ConstantsBuiltOnce | native-backend/src/runtime/strings.rs:42-57 | between resets of any such run, a constant is one object, built once, with its blob's contents at every use |
| JointRuns.DictionariesHold | native-backend/src/runtime/gc.rs:300-362 | in every state of any such run, a cached dictionary's string columns hold the tables they were serialised from |
| JointRuns.ConstantsHold | native-backend/src/runtime/gc.rs:109-173 | in every state of any such run, whatever is cached has its blob's contents word by word |
| JointRuns.RunsFreeAsAllocated | native-backend/src/runtime/gc.rs:65-91 | in every state of any such run, a reset gives all blocks back under the layouts they were allocated with |
| GCRuntime.ThreadState.GrowEnd | native-backend/src/runtime/gc.rs:622-668 | the sequence of stores in place leaves the heap of the growth theorem |
| GCRuntime.ThreadState.DelEnd | native-backend/src/runtime/gc.rs:673-698 | the sequence of stores in place leaves the heap of the deletion theorem |
| GCRuntime.ThreadState.Resize | native-backend/src/runtime/gc.rs:701-716 | a resize grows, deletes or does nothing according to the clamped target length |
| GCRuntime.ThreadState.CompactFront | NativeCodegen/src/builder_emit.jl:3059-3110 | the two field stores in place leave the heap of the compaction theorem |
| GCRuntime.ThreadState.FromRaw | native-backend/src/runtime/strings.rs:20-34 | the steps in place leave the heap and return the string of the raw-bytes theorem |
| GCRuntime.ThreadState.ConcatAll | NativeCodegen/src/builder_emit.jl:2072-2081 | the loop over operands leaves the heap and returns the string of the concatenation theorem |
| GCRuntime.ThreadState.Intern | native-backend/src/runtime/gc.rs:262-289 | the table search and insertion in place agree with the interning that identity is proved of |
| GCRuntime.ThreadState.MakeDictionary | native-backend/src/runtime/gc.rs:300-362 | the allocations and stores of a dictionary, its strings one by one, leave the heap of the dictionary theorem |
| GCRuntime.ThreadState.Fetch | native-backend/src/runtime/gc.rs:109-118 | the memo lookup, build and insertion in place agree with the fetch that is proved to build once |
| GCRuntime.ThreadState.ResetRuntime | native-backend/src/runtime/gc.rs:77-86 | all blocks are freed, and both tables are empty, in one step |

## Left out

- Statements other than those of `JuliaIR.Stmt`: memory operations, float arithmetic, calls between compiled functions and foreign calls inside a lowered block. The runtime operations they reach are modelled in the heap modules instead.
- What a program with failed statements computes: such programs are outside the simulation; `EdgeAgreement`, `BlockEndings`, `FailedStatements` and `Coercion` say what is emitted for them.
- The trap emitted in the middle of a block for `isdefined`, which is not a terminator.
- Reading a phi that has no value on the path taken: the simulation leaves the machine free there. `Progress` shows it cannot happen when phis are assigned on every edge.
- Exceptions the emitter does not tolerate: they abandon the whole function, and only an operand missing after the statements is modelled as such.
- Programs whose definitions do not come before their uses in statement order, phis apart: the emitter visits statements in that order, so the simulation requires it.
- Blocks beyond the control-flow graph: the source creates at least 2048, the model one per basic block and the entry.
- Worklist: whether a definition is the real body or the stub that traps in its place; both define the name once.
- Worklist: type signatures of declared functions and errors of the object writer; a method is a number with a body and a name, and an entry symbol is taken when the compilation declares it as data or with another signature.
- Negative sub-word fields in packed structs come back zero-extended; `RegisterStructs.RoundTripExactly` states it as registers that do not fit, and `StructLowering.UnpackRun` that no sign extension is emitted.
- `isa` tests by type tag, and type tags after a compaction followed by growth: the tag word is copied from where the code reads it, and nothing is claimed about it.
- Arithmetic that overflows 64 bits in sizes and lengths: addresses are assumed below 2^62, as user addresses are, and an allocation too large for a layout panics.
- ArrayOps.AssignEffect: registers no wider than the stride, as in `ArrayRuns`; `ElementStores.AssignsExactly` says when a wider one does its work and nothing else.
- Arrays over read-only data are built and cached, but not grown, shrunk, compacted or assigned in this model, and the read-only bytes themselves are not tracked.
- Dictionaries: string data that ends before its table does, null string data, and entry counts that are negative. Elements that are not strings stay in the image, and the object is only read.
- Constants of the image have an address each and are always requested alike; where an object writer places blobs of no bytes is not modelled.
- Sub-word integers (`Int8`, `Int16`, `UInt8`, `UInt16`) are not among the types of `JuliaIR`.
- Arena: alignments that are not powers of two, for which the code's mask is not the remainder; all of the runtime's requests are aligned to sixteen.
- Julia inference, method lookup, the linker, FFI wrappers, exceptions by longjmp, threads and Cranelift's own passes.
