# SymCC in Dafny

SymCC compiles a program so that it computes symbolic expressions beside its values, collects the
conditions of its branches as path constraints, and asks a solver for inputs that diverge.  This
project models its compiler pass, its run-time library and the helper that feeds its results to a
fuzzer, and proves what they promise for every program, every input and every run.

The model has these parts:

- `BitVectors`, `Expressions`, `Builders`, `Aggregates`: bit-vector expressions with the meaning that SMT-LIB
  gives them, and what the builder functions of the run-time library construct.  LLVM's operations are
  defined separately, and each builder is compared with the operation that it stands for.
- `FlatShadow`, `Shadow`: shadow memory as a flat map, and the paged implementation with its iterators,
  whose operations are proved to do the same.
- `Programs`: a small SSA language in the image of LLVM's (phi nodes, integer operations, casts, loads, stores,
  memory intrinsics, address computations, branches, switches, calls, reads from the input file) and its execution.
- `Concolic`: the instrumentation as a rule beside each machine step (the naive rule: no expression if all
  inputs are concrete, otherwise the run-time call with made-up expressions for the concrete inputs).
- `Visibility`, `MissedLookups`: which expressions of operands the emitted code sees, because the pass visits blocks in
  layout order, and exactly when it makes a difference that it misses one.
- `Faithfulness`, `Replay`, `Runs`: soundness and replay over whole runs, with the exact conditions under which the
  emitted code stands for an instruction.
- `ShortCircuit`, `Computations`, `Symbolizer`: the compiler pass itself, with the class `Symbolizer` that visits a function,
  finalizes phi nodes and rewrites computations.
- `Instrumented`, `PassFacts`, `EmittedCode`, `SsaForm`, `Refinement`, `Simulation`, `PassTheorems`: the execution of the
  instrumented program, and the proof that it follows the rule for what it sees along every run of every program in
  SSA form, however its blocks are laid out, and the naive rule where nothing is missed.  Soundness and replay then
  hold for the emitted code.
- `Solver`: path constraints in an incremental solver, with any correct solver and any simplifier that preserves
  meaning as parameters.
- `Example`: a small program that meets the premises of the main results and reaches a symbolic branch.
- `GarbageCollection`, `Pins`, `LibcWrappers`, `InputCursor`, `StrTo`: the rest of the run-time library and of the bundled C library model.
- `Coverage`, `SaveDecision`, `AflMap`: the coverage bookkeeping of pure concolic execution and of the fuzzing helper.

Where the code does not do what it is for, the model keeps the code's behaviour and a lemma says exactly when it
matters: sign extension of Booleans, truncation to Booleans, narrow negative array indices, aggregate
stores on little-endian machines, symbolic arguments of the library's memset, integers of 65 to 127 bits, blocks laid out before the definitions they use,
"0x" without digits, reused file descriptors, incomplete elements of fread, strings that end earlier on another
input, empty coverage maps, traces that stand for different blocks, and stored coverage that a process overwrites
without having loaded it.
The comment on select instructions (compiler/Symbolizer.cpp:388-390) says that the chosen argument's expression is copied;
the code records none, and the model follows the code.

Inputs are finite byte strings; the operating system, the solver, the simplifier and the results of libc calls
are parameters.

## Model

| member | source | states |
|---|---|---|
| `Builders.LiftDenotesIff` | compiler/Symbolizer.cpp:846-931 | the expression made up for a concrete value has its type and value exactly for widths up to 64 and 128 bits |
| `Builders.OperationDenotesIff` | compiler/Symbolizer.cpp:354-411 | on operands that denote their values, the built expression denotes the result of the operation if and only if the operation is not one of the listed exceptions (sign extension from i1, truncation to i1, ordered comparison of i1, members of partial bytes) |
| `Builders.SExtDenotesIff` | compiler/Symbolizer.cpp:706-748 | sign extension is right for i1 only when the Boolean is false, because it becomes one instead of minus one |
| `Builders.TruncDenotesIff` | compiler/Symbolizer.cpp:629-636 | truncation is right unless it yields an i1, which stays a bit vector |
| `Builders.CmpDenotesIff` | runtime/simple_backend/Runtime.cpp:231-239 | comparisons mean the comparison of the values, except ordered ones of Booleans |
| `Builders.BuildExtract` | runtime/RuntimeCommon.cpp:139-160 | the loop builds the slice of the requested bytes |
| `Builders.ExtractSliceEval` | runtime/RuntimeCommon.cpp:139-160 | an extracted slice evaluates to the number that the selected bytes form in the requested byte order |
| `Builders.ExtractsCompose` | runtime/RuntimeCommon.cpp:139-160 | extracting from a big-endian extract adds the offsets |
| `Builders.BswapReverses` | runtime/RuntimeCommon.cpp:162-166 | byte swapping reverses the bytes of the value, in either byte order |
| `Builders.BswapInvolutive` | runtime/RuntimeCommon.cpp:162-166 | swapping twice is the identity |
| `Aggregates.ExtractAgreesWithLoad` | compiler/Symbolizer.cpp:769-796 | extracting a member from a whole-region big-endian read and loading the member from memory evaluate to the same bytes, in either byte order |
| `FlatShadow.ReadShadowMeaning` | runtime/RuntimeCommon.cpp:82-108 | a read is null exactly on concrete ranges and otherwise evaluates to the endian-weighted sum of memory, symbolic and concrete bytes mixed |
| `FlatShadow.WriteShadowMeaning` | runtime/RuntimeCommon.cpp:110-137 | storing a value beside its expression keeps the shadow a description of memory |
| `FlatShadow.WriteShadowMeaningIff` | runtime/RuntimeCommon.cpp:110-137 | when the expression is taken apart in one byte order and the value stored in the other, the shadow describes memory if and only if the two byte strings are equal |
| `FlatShadow.CopyShadowMeaning` | runtime/RuntimeCommon.cpp:53-80 | copying memory and shadow together keeps the shadow a description of memory |
| `FlatShadow.FillShadowMeaning` | runtime/RuntimeCommon.cpp:62-68 | filling memory and shadow together keeps the shadow a description of memory |
| `FlatShadow.WriteThenRead` | runtime/RuntimeCommon.cpp:82-137 | writing an expression and reading any part of it back evaluates to that slice, in either byte order |
| `FlatShadow.WriteThenReadAll` | runtime/RuntimeCommon.cpp:82-137 | write-then-read round trip for every length and byte order |
| `FlatShadow.CopyThenRead` | runtime/RuntimeCommon.cpp:53-80 | reading at the destination of a copy is reading at the source before it |
| `Faithfulness.TryAlternativePins` | compiler/Symbolizer.cpp:933-946 | the pushed equality holds under an input exactly when the value is the same in the replayed run |
| `Faithfulness.ElementDenotesIff` | compiler/Symbolizer.cpp:545-602 | the expression for index times element size is right exactly for indices of pointer width and narrower ones whose zero-extension happens to agree |
| `Faithfulness.GepRelated` | compiler/Symbolizer.cpp:513-602 | with such indices the address expression evaluates to the computed address, modulo the address space; a null one means the address does not depend on the input |
| `Replay.LoadRelated` | compiler/Symbolizer.cpp:473-492 | a loaded value keeps its relation to the replayed run if and only if the width is a whole number of bytes or the bytes are concrete |
| `Replay.StoreRelatedIff` | compiler/Symbolizer.cpp:494-511 | a store keeps shadow and memory related if and only if the value has no expression, or it fills whole bytes that are the same in the machine's byte order, in which the expression is taken apart, and in the order of memory |
| `Replay.AggregateStoreFails` | compiler/Symbolizer.cpp:499-511 | a two-byte aggregate with value 258 on a little-endian machine, whose bytes the shadow has the wrong way around after the store |
| `Replay.CopyRelatedIff` | compiler/Symbolizer.cpp:638-648 | a cast that keeps the expression is right for a symbolic value if and only if it keeps the width |
| `Replay.ConditionPins` | compiler/Symbolizer.cpp:428-442 | the constraint pushed for a condition holds exactly under inputs that give it the same outcome |
| `Replay.SwitchPins` | compiler/Symbolizer.cpp:798-829 | the constraints pushed for all cases pin the selected case |
| `Replay.StepRelated` | compiler/Symbolizer.cpp:318-602 | one machine step keeps the relation between a run, its expressions and another run whose input satisfies the constraints: same frames, block and position, values as their expressions say, whatever expressions of operands the emitted code sees |
| `Visibility.SeesAllIff` | compiler/Symbolizer.h:200-211 | the emitted code sees every expression that a step could use if and only if no operand that is defined later in layout order has one |
| `Runs.Soundness` | compiler/Symbolizer.cpp:354-602 | over whole runs of any program and input, for the naive rule and for the rule of what the emitted code sees, every expression evaluates to the value or byte beside it, and every pushed constraint holds |
| `Runs.RunExtendsPath` | runtime/simple_backend/Runtime.cpp:474-478 | constraints are never retracted along a run |
| `Runs.ReplayRun` | compiler/Symbolizer.cpp:428-442 | an input of the same length that satisfies all constraints of a run, in which every operand's expression was seen and none was dropped by a select or by a call of main, replays it step by step, until it traps or meets an instruction that the code does not stand for |
| `Runs.Diverges` | compiler/Symbolizer.cpp:428-442 | an input that replays a run up to a branch and makes the condition's expression differ leaves through the other side |
| `ShortCircuit.ShortCircuitExpressionUse` | compiler/Symbolizer.cpp:92-186 | the rewrite loop emits the all-null test, the argument checks, the slow path and the result phi as specified by Lower |
| `ShortCircuit.BuildSlowPath` | compiler/Symbolizer.cpp:133-170 | the check for an argument is left out for compile-time nulls and for the only argument of unknown concreteness |
| `ShortCircuit.LowerCorrect` | compiler/Symbolizer.h:53-96 | for every computation and state, the rewritten code gives the expression and pushes the constraints of the naive rule |
| `ShortCircuit.OneUnknownIsSymbolic` | compiler/Symbolizer.cpp:139-143 | an argument whose check is skipped is never null on the slow path |
| `Computations.AppendCallOrdered` | compiler/Symbolizer.h:171-181 | merging computations keeps operand positions distinct and results used after they are computed |
| `Computations.AppendValue` | compiler/Symbolizer.h:156-181 | after merging, the last call computes its function of the expressions of its arguments |
| `Computations.AppendConcrete` | compiler/Symbolizer.h:234-243 | a merged computation is skipped exactly when all inputs of both parts are null |
| `Symbolizer.Symbolizer.SymbolizeFunctionArguments` | compiler/Symbolizer.cpp:28-40 | parameters that have uses get the expressions of their slots, except in the main function |
| `Symbolizer.Symbolizer.ForceBuildRuntimeCall` | compiler/Symbolizer.cpp:914-931 | the two argument loops and the merge append the call with its operands and register exactly its symbolic arguments as inputs |
| `Symbolizer.Symbolizer.VisitGetElementPtrInst` | compiler/Symbolizer.cpp:513-602 | the loop over the indices emits the chain of calls that GepRun gives a meaning to, with both early returns |
| `Symbolizer.Symbolizer.VisitCall` | compiler/Symbolizer.cpp:318-352 | the loop over the arguments fills the parameter slots |
| `Symbolizer.Symbolizer.Visit` | compiler/Symbolizer.cpp:354-829 | visiting a node emits the code that CodeThroughNodeMap and GepRun speak of, records at most the operand of the value it defines, and puts phi nodes aside with dummies |
| `Symbolizer.Symbolizer.FinalizePHINodes` | compiler/Symbolizer.cpp:56-90 | phi nodes with only compile-time concrete inputs become null wherever they are used, all others select the expressions of their inputs |
| `Symbolizer.Symbolizer.ShortCircuitExpressionUses` | compiler/Symbolizer.cpp:92-186 | every recorded computation is rewritten |
| `Symbolizer.RunOnFunction` | compiler/Pass.cpp:123-127 | the phases together produce the instrumented function |
| `Symbolizer.ItemsLowerable` | compiler/Symbolizer.cpp:92-95 | every computation that a visitor registers has inputs, so the rewrite's assertion cannot fail |
| `PassFacts.LookupFinds` | compiler/Symbolizer.h:200-211 | a lookup while a node is visited finds what is recorded in the end if the operand is defined earlier in layout order, and nothing otherwise |
| `PassFacts.CodeThroughNodeMap` | compiler/Symbolizer.cpp:56-90 | the final code of each node is what its visitor emits for the expressions found then, erased phi nodes replaced |
| `PassFacts.RecordedThroughNodeMap` | compiler/Symbolizer.h:261-266 | the operand finally recorded for a value is the visitor's, erased phi nodes replaced |
| `PassFacts.PhiThroughFinalMap` | compiler/Symbolizer.cpp:56-82 | a phi node either selects the expressions of its inputs or is null and has only null inputs |
| `EmittedCode.AlternativeRun` | compiler/Symbolizer.cpp:933-946 | the emitted code pins a value that has an expression and does nothing otherwise |
| `EmittedCode.PushRun` | compiler/Symbolizer.cpp:428-442 | the emitted code pushes a condition that has an expression, with its outcome |
| `EmittedCode.OpRun` | compiler/Symbolizer.h:233-256 | the emitted code of an operation computes null on null inputs and otherwise the built expression on lifted inputs |
| `EmittedCode.GepRun` | compiler/Symbolizer.cpp:513-602 | the emitted multi-call address computation gives the naive rule's expression |
| `EmittedCode.ParamsRun` | compiler/Symbolizer.cpp:333-336 | the parameter slots are filled with the expressions of the arguments |
| `SsaForm.OwnerDefinedFirst` | compiler/Symbolizer.cpp:604-648 | wherever a cast or zero-offset address shares another value's expression, that value has been defined |
| `SsaForm.UpToDate` | compiler/Symbolizer.h:312-321 | in SSA form, a value used on some path still has its own expression there, although expressions are shared and overwritten in loops |
| `SsaForm.AllFoundIff` | compiler/Pass.cpp:101-124 | all lookups of the pass find what is recorded in the end if and only if every operand is defined earlier in layout order or never has an expression |
| `SsaForm.FirstSeesAll` | compiler/Pass.cpp:101-124 | laying out definitions before uses is enough for the emitted code to see everything |
| `MissedLookups.MissedMattersIff` | compiler/Symbolizer.h:200-211 | at every node, program and state: what is done with the expressions found is what the naive rule does if and only if no operand with an expression is missed, or the node is indifferent to it (another operand is symbolic and the missed ones have just the constants of their values; an empty memset; a switch without cases) |
| `MissedLookups.KeepsInStepIff` | compiler/Pass.cpp:101-124 | so whole runs keep to the naive rule exactly as long as nothing matters that is missed |
| `MissedLookups.ReplaySeenRun` | compiler/Symbolizer.cpp:428-442 | replay of a run in which expressions were missed, all of them harmlessly: an input that satisfies the constraints pushed with what was seen replays it |
| `Refinement.InstrSim` | compiler/Symbolizer.cpp:354-748 | beside any instruction, the emitted code changes shadow, cursor and path as the rule does for the expressions it sees, and leaves the rule's expression of the result where the visitor records it |
| `Refinement.PhisSim` | compiler/Symbolizer.cpp:56-90 | entering a block, the finished symbolic phi nodes give each phi the expression of the incoming value that was chosen, self-referential and mutually referring ones included |
| `Refinement.TermSim` | compiler/Symbolizer.cpp:428-442 | the code of a terminator pushes the rule's constraints for the expression it sees |
| `Simulation.CallStepSim` | compiler/Symbolizer.cpp:318-352 | calls pass expressions through the slots to the callee, and only the awaited result is out of date in the caller |
| `Simulation.ReturnStepSim` | compiler/Symbolizer.cpp:413-426 | returns hand the expression of the result to the caller |
| `Simulation.StepSim` | compiler/Symbolizer.cpp:28-946 | every step of the instrumented program keeps it in step with the rule for what it sees, for every layout of blocks |
| `Simulation.RunSim` | compiler/Symbolizer.cpp:28-946 | so does every run, from every start |
| `PassTheorems.PassRefinesVisibleRule` | compiler/Symbolizer.cpp:56-186 | for every program in SSA form, with its blocks in any order, the emitted code's path, shadow, slots and what it sees of its operands are those of the rule for what it sees, after any number of steps |
| `PassTheorems.PassRefinesNaiveRule` | compiler/Symbolizer.cpp:56-186 | for programs in which every operand is visited after its definition or never has an expression, they are the naive rule's |
| `PassTheorems.DefinitionsFirstRefinesNaiveRule` | compiler/Pass.cpp:101-124 | in particular for programs whose blocks are laid out with definitions before uses, phi nodes aside, which can be read off the program without running the pass |
| `PassTheorems.EmittedCodeIsSound` | compiler/Symbolizer.cpp:354-602 | soundness of the emitted code for every program in SSA form and every layout: its constraints hold, its shadow describes memory, and what it sees of an operand evaluates to the operand's value |
| `PassTheorems.EmittedCodeReplays` | compiler/Symbolizer.cpp:428-511 | replay, for the emitted code and every layout, also when expressions are missed, as long as none of them matters |
| `PassTheorems.EmittedCodeDiverges` | compiler/Symbolizer.cpp:428-442 | an input that breaks the constraint of a branch takes the other side, for the emitted code |
| `PassTheorems.LayoutOrderIsNeeded` | compiler/Pass.cpp:101-124 | a function in SSA form with a use laid out before its definition, for which the pass emits no code although the naive rule has an expression |
| `Shadow.ShadowPages.GetOrCreateShadow` | runtime/Shadow.h:157-166 | creating a page changes no cell |
| `Shadow.ReadShadowIterator.Next` | runtime/Shadow.h:68-75 | stepping forward keeps the pointer on the current cell, across pages |
| `Shadow.ReadShadowIterator.Previous` | runtime/Shadow.h:77-84 | stepping backward keeps the pointer on the current cell, across pages |
| `Shadow.WriteShadowIterator.Write` | runtime/Shadow.h:154-154 | a write through the iterator changes exactly the cell of its address |
| `Shadow.IsConcreteRange` | runtime/Shadow.h:204-216 | the test, with its fast path for one page, holds exactly when every cell is null |
| `Shadow.CopyForward` | runtime/RuntimeCommon.cpp:57-59 | a forward walk is a simultaneous copy when the ranges are disjoint or the destination is not after the source, although the source iterator may miss pages created meanwhile |
| `Shadow.CopyBackward` | runtime/RuntimeCommon.cpp:74-77 | a backward walk is a simultaneous copy when the source is not after the destination |
| `Shadow.MemCpy` | runtime/RuntimeCommon.cpp:53-60 | memcpy does to the flat shadow what the machine says |
| `Shadow.MemMove` | runtime/RuntimeCommon.cpp:70-80 | memmove is a simultaneous copy for every overlap and page layout |
| `Shadow.MemSet` | runtime/RuntimeCommon.cpp:62-68 | memset fills exactly the range |
| `Shadow.WriteMemory` | runtime/RuntimeCommon.cpp:110-137 | a write puts the bytes of the expression in the range, or clears it |
| `Shadow.ReadMemory` | runtime/RuntimeCommon.cpp:82-108 | the fold over the iterator is the read of the flat shadow |
| `Solver.PathSolver.Solve` | runtime/simple_backend/Runtime.cpp:455-472 | push, assert, check and pop leave the assertions as they were, and a model satisfies them and the query |
| `Solver.PathSolver.PushPathConstraint` | runtime/simple_backend/Runtime.cpp:426-482 | at most one assertion is added, equivalent to the constraint with its outcome and true now; a reported input satisfies the old assertions and flips the outcome; without one, unless the solver gave up, none exists |
| `Solver.FormsExpress` | runtime/simple_backend/Runtime.cpp:431-453 | the simplified condition and its simplified negation say that the condition is true and false |
| `Solver.PushPath` | runtime/simple_backend/Runtime.cpp:426-482 | after a whole path the assertions are equivalent to it; the input found at each constraint satisfies all earlier ones and breaks that one; and where none is found and the solver has not given up, none exists |
| `Solver.ReportedInputDiverges` | runtime/simple_backend/Runtime.cpp:460-469 | a reported input reaches the same branch and leaves it on the other side, unless it stops earlier |
| `Example.FindsFortyTwo` | compiler/Symbolizer.cpp:401-442 | a program that compares an input byte with 42 meets all premises of the theorem on reported inputs, and the reported input takes the other side |
| `GarbageCollection.EventKeepsSafe` | runtime/simple_backend/Runtime.cpp:527-544 | registering, writing, copying and collecting keep every reachable expression allocated |
| `GarbageCollection.CollectionIsSafe` | runtime/simple_backend/Runtime.cpp:97-106 | so does any interleaving of them |
| `GarbageCollection.Runtime.RegisterExpression` | runtime/simple_backend/Runtime.cpp:97-106 | registering allocates the expression and nothing else |
| `GarbageCollection.Runtime.RegisterExpressionRegion` | runtime/GarbageCollection.cpp:25-27 | a region is searched from then on |
| `GarbageCollection.Runtime.CollectReachableExpressions` | runtime/GarbageCollection.cpp:29-49 | exactly the expressions in some registered region or shadow page are found |
| `GarbageCollection.Runtime.CollectGarbage` | runtime/simple_backend/Runtime.cpp:527-544 | below the threshold nothing happens, otherwise exactly the reachable allocated expressions stay |
| `StrTo.ReadPrefix` | models/klee-libc/strtol.c:60-79 | white space, a sign and a base prefix are skipped |
| `StrTo.ReadDigits` | models/klee-libc/strtol.c:101-123 | the accumulator never wraps, overflow is flagged exactly when the number of the full run exceeds the limit, and the run is the longest |
| `StrTo.CutoffIsExact` | models/klee-libc/strtol.c:84-116 | the cutoff test holds exactly when the next number is over the limit |
| `StrTo.Strtol` | models/klee-libc/strtol.c:46-135 | the result is exact or clamped with a range error, and endptr is just past the digits or at the start |
| `StrTo.Strtoul` | models/klee-libc/strtoul.c:45-113 | the same for unsigned numbers, with modular negation |
| `StrTo.StrtolConformsIff` | models/klee-libc/strtol.c:72-77 | agreement with ISO/IEC 9899:2011, section 7.22.1.4, if and only if there is no "0x" without a hexadecimal digit |
| `StrTo.StrtoulConformsIff` | models/klee-libc/strtoul.c:69-74 | the same for strtoul |
| `StrTo.DanglingExample` | models/klee-libc/strtol.c:72-77 | on "0xg" in base 16 strtol reports that there is no number, where the standard reads a zero |
| `Pins.PinsHoldIff` | runtime/LibcWrappers.cpp:43-52 | the pins pushed for the arguments of a wrapper hold under exactly the inputs that leave the arguments unchanged |
| `LibcWrappers.Memcmp` | runtime/LibcWrappers.cpp:471-495 | memcmp pins its arguments and pushes the conjunction over all bytes with the actual outcome, or nothing more on concrete ranges |
| `LibcWrappers.MemcmpIsExact` | runtime/LibcWrappers.cpp:482-493 | an input satisfies that conjunction exactly when the comparison has the same outcome on it |
| `LibcWrappers.MemcmpPathIff` | runtime/LibcWrappers.cpp:471-495 | an input satisfies all that memcmp pushes exactly when the arguments are unchanged and the comparison has the same outcome |
| `LibcWrappers.Strchr` | runtime/LibcWrappers.cpp:439-469 | strchr pins its arguments and pushes one inequality for each byte before the end of its search |
| `LibcWrappers.StrchrIsExact` | runtime/LibcWrappers.cpp:456-466 | an input satisfies the inequalities exactly when no byte of the prefix matches |
| `LibcWrappers.StrchrPathIff` | runtime/LibcWrappers.cpp:439-469 | an input satisfies all that strchr pushes exactly when the arguments are unchanged and no byte of the prefix is the character |
| `LibcWrappers.SameSearchIff` | runtime/LibcWrappers.cpp:443-467 | of the inputs that satisfy the inequalities, exactly those keep the end of the search that have no null byte in the prefix and the character or a null byte after it |
| `LibcWrappers.StrchrHoldsNow` | runtime/LibcWrappers.cpp:443-466 | they hold under the current input |
| `LibcWrappers.MemsetRelatedIff` | runtime/LibcWrappers.cpp:390-399 | memset hands the expression of its int argument to every byte, so the shadow describes memory afterwards if and only if the argument has no expression or no byte is set |
| `LibcWrappers.Strncpy` | runtime/LibcWrappers.cpp:414-437 | the arguments are pinned, the shadow of the string is copied and that of the padding cleared |
| `LibcWrappers.StrncpyRelatedIff` | runtime/LibcWrappers.cpp:422-434 | after strncpy the shadow describes the memory of another input if and only if the string is as long there, or ends earlier with only null bytes up to the end of the copied part |
| `InputCursor.Wrappers.Open` | runtime/LibcWrappers.cpp:110-126 | opening the input file makes its descriptor the tracked one, at offset zero |
| `InputCursor.Wrappers.Read` | runtime/LibcWrappers.cpp:128-149 | a read pins buffer and count, gives input bytes the expressions of their offsets and clears the shadow of others |
| `InputCursor.Wrappers.Fread` | runtime/LibcWrappers.cpp:231-250 | fread pins its arguments and does the same for complete elements |
| `InputCursor.Wrappers.Lseek64` | runtime/LibcWrappers.cpp:165-178 | a successful lseek64 moves the cursor of the tracked descriptor, and returns the expression of the offset if the position is absolute |
| `InputCursor.Wrappers.Fseek` | runtime/LibcWrappers.cpp:281-297 | fseek pins the offset and moves the cursor to the position that ftell reports, or leaves it if there is none |
| `InputCursor.Wrappers.Getc` | runtime/LibcWrappers.cpp:335-349 | getc returns the expression of the byte at the cursor |
| `InputCursor.StaysInStepIff` | runtime/LibcWrappers.cpp:110-178 | a call keeps the cursor at the file position if and only if it is not a second open of the input, a reuse of its closed descriptor, an fread that consumes an incomplete element of it, or an fseek to another position that ftell does not report |
| `InputCursor.CursorIsPosition` | runtime/LibcWrappers.cpp:231-365 | over any run without those, the cursor is the position of the input file |
| `InputCursor.EachByteItsOwn` | runtime/LibcWrappers.cpp:138-146 | then each byte read has exactly the expression of its place in the file, and bytes of other files have none |
| `InputCursor.ReuseConfuses` | runtime/LibcWrappers.cpp:138-142 | after close, a file that gets the same descriptor is taken for the input |
| `InputCursor.GetcMeaning` | runtime/LibcWrappers.cpp:342-344 | what getc returns is a 32-bit expression of the byte at the cursor |
| `Coverage.Recorder.CovCb` | runtime/qsym_backend/Runtime.cpp:715-736 | counters are visits modulo 2^32, the trace is the sum of the distinct ids modulo 2^32, and the solver is asked to save exactly at a block that is new, in no stored counter, after a negative decision |
| `Coverage.TraceIgnoresOrder` | runtime/qsym_backend/Runtime.cpp:721-722 | the trace depends only on the set of visited blocks |
| `Coverage.TracesEqualIff` | runtime/qsym_backend/Runtime.cpp:721-722 | any two runs have the same trace if and only if the blocks visited only by the one and those visited only by the other have the same sum modulo 2^32 |
| `Coverage.TracesCollide` | runtime/qsym_backend/Runtime.cpp:721-722 | so different blocks can have the same trace: a run that visits 1 and 2 looks like one that visits 3 |
| `Coverage.MergeCounters` | runtime/qsym_backend/Runtime.cpp:173-188 | the stored counters become the pointwise maximum |
| `Coverage.ReadCounters` | runtime/qsym_backend/Runtime.cpp:437-464 | the reading loop consumes the file's lines in pairs |
| `Coverage.WriteCounters` | runtime/qsym_backend/Runtime.cpp:198-206 | the writing loop produces two lines for each counter |
| `Coverage.CountersRoundTrip` | runtime/qsym_backend/Runtime.cpp:198-206 | reading what was written restores the counters, in any iteration order |
| `Coverage.ListRoundTrip` | runtime/qsym_backend/Runtime.cpp:210-233 | so does reading a list that was written |
| `SaveDecision.Decider.PureConcolicShouldSave` | runtime/qsym_backend/Runtime.cpp:432-636 | the first call loads the stored counters and lists; the answer is yes exactly on a better counter, a new block or trace for the direction, a new trace, or a site saved before, and the lists grow accordingly |
| `SaveDecision.Decider.Exit` | runtime/qsym_backend/Runtime.cpp:173-233 | at exit the files hold the lists and the pointwise maximum of the loaded counters and this run's |
| `SaveDecision.NotSavingMeans` | runtime/qsym_backend/Runtime.cpp:495-605 | a negative answer changes nothing and means that nothing was new |
| `SaveDecision.KeepsDuplicateFree` | runtime/qsym_backend/Runtime.cpp:515-585 | lists without duplicates stay without |
| `SaveDecision.OnceSavedAlwaysSaved` | runtime/qsym_backend/Runtime.cpp:588-604 | in one process the answers for a site are no up to a point and yes from then on |
| `SaveDecision.SecondTimeNothingNew` | runtime/qsym_backend/Runtime.cpp:518-604 | the same situation at another site is not saved again, unless that site was saved before |
| `SaveDecision.ProcessKeepsIff` | runtime/qsym_backend/Runtime.cpp:197-233 | a process keeps all that is stored if and only if it has made a decision, or there was nothing in the lists and its own counters are no smaller: otherwise it overwrites files that it has not loaded |
| `SaveDecision.ChainKeepsIff` | runtime/qsym_backend/Runtime.cpp:197-233 | over any sequence of processes, what is stored at some time stays stored at all later times if and only if every process meets that condition |
| `SaveDecision.LostAndFound` | runtime/qsym_backend/Runtime.cpp:197-233 | the first and the last files alone do not show a loss: two processes of which the first loses everything and the second stores it again |
| `AflMap.CoverageMap.Merge` | util/symcc_fuzzing_helper/src/symcc.rs:74-107 | the map becomes the bytewise or over the common prefix, and the answer is whether it changed, two empty maps aside |
| `AflMap.YesIsBounded` | util/symcc_fuzzing_helper/src/symcc.rs:74-107 | the number of interesting maps is bounded by the bits set at the end, after the first one and any empty ones before it |
| `AflMap.NewTestcasesAreBounded` | util/symcc_fuzzing_helper/src/main.rs:381-394 | for maps that are not empty the length is fixed and at most 1 + 8 * length are interesting |
| `AflMap.SeenIsNotInteresting` | util/symcc_fuzzing_helper/src/symcc.rs:86-98 | a map that was merged before is never interesting again |
| `AflMap.State.ProcessNewTestcase` | util/symcc_fuzzing_helper/src/main.rs:351-419 | interesting test cases and crashes, or all without showmap, are enqueued, unless the parent's name has no id |
| `AflMap.State.TestInput` | util/symcc_fuzzing_helper/src/main.rs:248-256 | over all test cases generated from an input, whatever showmap does, the totals, the queue and the merged coverage are as counted |
| `AflMap.NewAreInteresting` | util/symcc_fuzzing_helper/src/main.rs:381-394 | the new test cases are the interesting maps, or none if the input's name has no id |
| `AflMap.ProcessAll` | util/symcc_fuzzing_helper/src/main.rs:248-256 | a whole campaign enqueues at most as many new test cases as there are interesting maps, at most 1 + 8 * length for maps that are not empty, and besides them only crashes |

## Left out

- Floating point, inline assembly, exceptions, indirect branches and calls, bit-count and other intrinsics, and stack allocation: not in the program language.
- Calls with more than 256 arguments: the index of a parameter slot is an 8-bit number, and such calls would reuse slots.
- Callees that are not instrumented, and callbacks from them: every function of a program is instrumented.
- Structures as values of instructions other than whole loads, stores and member extraction; the run-time library lifts a concrete structure by reading memory, which is not modelled.
- Replay of select results and of the main function's arguments: the code records no expression for them, so the replay theorems ask that the chosen value is concrete.
- Switch conditions of 65 to 127 bits: the made-up expressions of their cases have another width, and the theorems ask that they do not occur with an expression.
- Unused phi nodes and unused results of calls: every one is treated as used.
- Symbolizer.RunOnFunction: functions that the pass leaves alone by name, and the notifications of basic blocks.
- Address ranges that wrap around the end of the address space: all range operations require that they do not.
- Basic-block and call notifications, site identifiers in the pass, and logging.
- QSYM's own solver, expression builder and simplifications, and reference counts of Z3 expressions; expressions are identified by value.
- Solver.PathSolver.PushPathConstraint: a check that gives up stops a debug build of the runtime at its assertion; the model goes on.
- Input bytes accessed out of order for the first time in the simple backend (runtime/simple_backend/Runtime.cpp:191-204), which leaves holes in its table.
- InputCursor: fgets and ungetc, the 32-bit overflow check of lseek, and mixing descriptor and stream calls on one file, whose positions differ by the stream's buffer.
- Coverage.ReadCounters: atol on lines that do not start with a digit.
- GarbageCollection: when collections happen, and the slots for parameters and return values, which the collector does not search.
- Choice of the next test case, its score, statistics, time limits, file names and process handling of the fuzzing helper.
- The other string functions of the bundled C library model: they would only add easy members.
