# Pony++ engines: a verified model

This project models the parts of the Pony++ tool chain and runtime whose correctness is
hardest to see from the code, and proves what they promise.  All the original code is C
that updates state in place; each engine is modelled in two layers.  Functions say what a
step computes; classes and methods with the program's own loops and fields are proved to
compute exactly that; lemmas then prove the promised properties of those functions, over
all inputs, all reachable states or all runs.

| file | what it models |
|---|---|
| `Mpmc.dfy`, `MpmcQueue.dfy` | the lock-free ring: every interleaving of any number of producers and consumers, one atomic action per load, compare-and-swap, data access and publication; the ring as a class whose actions are those steps |
| `GcModel.dfy`, `GcMarking.dfy`, `GcTheorems.dfy`, `GcRuns.dfy`, `Gc.dfy` | the semispace collector: worklist marking, copying with pointer patching in place, root relocation by content, flip, and whole runs over it |
| `PonySyntax.dfy`, `ParserGrammar.dfy`, `Parser.dfy` | the ten-level expression parser |
| `WasmMachine.dfy`, `WasmCompiler.dfy`, `SourceSemantics.dfy`, `WasmScope.dfy`, `WasmCorrect.dfy`, `WasmProgram.dfy`, `WasmDeepLoops.dfy`, `WasmOperators.dfy` | the Wasm back end as a compiler from statements to structured code, a Wasm machine, a source semantics, the proof that the one simulates the other, and where it does not: deep loops and single operators |
| `WasmBinary.dfy`, `WasmEmitter.dfy`, `ParseCompile.dfy` | the emitter as it appends bytes, a decoder for those bytes, and the chain from tokens and bytes to behaviour |
| `Leb128.dfy`, `I32.dfy`, `Bits.dfy`, `Wrappers.dfy` | LEB128 writers and readers, 32-bit arithmetic, bitwise operators, `Option` |
| `StringSpec.dfy`, `LinearMemory.dfy` | the emitted string routines over linear memory and a bump allocator |
| `ClassLayout.dfy` | the function-index layout of class methods |
| `ActorModel.dfy`, `ActorRuntime.dfy` | mailboxes, message pool, deduplication and the one-message-a-tick scheduler |
| `WorkStealing.dfy`, `WorkScheduler.dfy` | the 64-slot work rings, stealing, and the many-to-many scheduler |
| `DwarfLine.dfy` | the line-number program and the state machine of DWARF version 5 (section 6.2) |
| `JsonText.dfy`, `JsonRuntime.dfy` | the inline JSON runtime |

Where the program does something other than what its own comments or the rest of it
suggest, the model follows the program and a lemma says exactly when the two meet:

- A dequeue can answer "empty" after an enqueue has completed, when an earlier producer is stalled (`EmptyDespiteCompletedEnqueue`).
- A collection leaves no stale pointer if and only if survivors only point to earlier objects (`NoStaleIffPointsBack`); where no survivor's word lies in to-space already (`PlainWordLooksForwarded` shows what such a word does), a root moves to the copy of the first survivor with its object's words and only earlier pointers, and dangles if there is none (`RootMovesToFirstTwin`, `SelfPointerGoesStale`); where survivors also only point back it is its own object's copy if and only if no earlier survivor has equal contents (`OwnCopyIffFirstOfItsContents`). The discipline lasts over any number of collections (`EveryCollectionKeepsTheGraph`).
- The parser builds labelled nodes for `break` and `continue` and wraps annotations, and the back end sees neither; a name read before its first textual assignment and an operator it does not know are 0 to it. The code of any program is the code of the program it sees (`CompiledAsSeen`, `SeenEntryCorrect`), with programs that end differently for each (`ParsedBreakDiverges`, `ParsedU32ComparesSigned`, `UnseenNameReadsZero`, `RemainderReturnsZero`). An operator's code is right for all operands if and only if it is not `|`, `^`, `&`, `<<`, `>>`, `%` or `~` (`BinaryRightIff`, `UnaryRightIff`).
- The native back end keeps a negated U32 unsigned, the emitter does not: an ordered comparison comes out the same if and only if the two agree on the signedness or the operands' top bits do (`ComparisonIsNativeIff`, `NegatedU32Differs`).
- Behind and inside more than 32 nested loops the table that says how far a jump goes is short of records. At any depth, the code is right where each jump's last record is that of its own loop (`StmtCorrect`). For loop-free code that is also needed: such a loop body beyond the 32 is right for all conditions, bodies and starts if and only if the loop stands at the if nesting of the 32nd (`LoopRightIff`), and all loop-free code behind any statement, at any depth, if and only if a record is left and is that of the loop around it (`BehindRightIff`). A loop in an `if` inside `n` plain loops already answers wrongly from `n` = 32 on (`DeepBreak`).
- Declared and emitted methods agree, one by one, if and only if every recorded actor with methods is the first of its name, under a name of at most 63 characters, and no actor behind the 16th shares a recorded name that has methods (`LayoutAgreesIff`); they can agree in number and still be misplaced (`CountsAgreeIff`, `DuplicateNamesBreakTheModule`, `LongNameBreaksTheModule`).
- The emitted `field` routine takes a negative index for a huge one, the native routine for zero (`FieldsAgreeIff`, `FieldsDiffer`); `repl` ends if and only if its pattern is not empty (`ReplaceEndsIff`).
- Special line opcodes also advance the address by one: a sequence keeps its addresses if and only if they never fall and no line step is short, several sequences if and only if every row fits what the previous ones left (`OneSequenceSurvivesIff`, `AddressesSurviveIff`). Columns lag, and come back if and only if none is given (`ColumnsLag`, `ColumnsSurviveIff`).
- A lone worker never looks at the overflow ring (`LoneWorkerStarvesOverflow`, `DrainsIff`), and a message taken out of a ring is freed unhandled unless an actor is running at that turn (`NothingDroppedIff`).
- Three of JSON's one-letter escapes are read as plain letters (`StandardEscapesIff`).

Definitions that several operations share are also tied down from outside, in numbers or by
position: the source operators and statements (`ArithmeticInNumbers`, `DivisionInNumbers`,
`ComparisonsInNumbers`, `Branches`, `Stores`, `Jumps`, `InOrder`), the machine
(`NumericInstructions`, `OneInstruction`, `Labels`), the bytes of its instructions
(`OpcodesWritten`, `StructureWritten`, `NumericOpcodesWritten`), initializers and Boolean operands
(`InitializedWith`, `BooleanForms`), and fields of a text (`FieldIs`).

## Model

| member | source | states |
|---|---|---|
| MpmcProtocol.ReachableInv | src/ponypp/mpmc.c:74-156 | in every state of every interleaving: dequeue_pos <= enqueue_pos <= dequeue_pos + cap, every slot's sequence is exactly free or full for one ticket of its index, and no two threads own one slot |
| MpmcProtocol.AdvanceKeepsInv | src/ponypp/mpmc.c:96-156 | any atomic action of any thread, a failed compare-and-swap included, keeps that invariant |
| MpmcProtocol.TicketDelivery | src/ponypp/mpmc.c:104-141 | the consumer that wins ticket p returns the value the producer that won ticket p stored |
| MpmcProtocol.FifoPrefix | src/ponypp/mpmc.c:93-156 | values returned in ticket order are a prefix of values enqueued in ticket order |
| MpmcProtocol.ReturnedOnce | src/ponypp/mpmc.c:136-145 | a ticket is handed back at most once and only one consumer holds it |
| MpmcProtocol.EmptyAnswer | src/ponypp/mpmc.c:130-150 | a dequeue answers empty if and only if, at its sequence load, its possibly stale position is current and that ticket is unpublished |
| MpmcProtocol.FullAnswer | src/ponypp/mpmc.c:96-118 | an enqueue answers full if and only if its position is current and the slot is still held by the ticket one lap earlier |
| MpmcProtocol.OneOwnerPerSlot | src/ponypp/mpmc.c:104-145 | between winning and publishing a thread is the only owner of its slot |
| MpmcProtocol.RefinesBoundedFifo | src/ponypp/mpmc.c:93-156 | every action is an append, a removal of the oldest value, or nothing on a bounded first-in first-out queue |
| MpmcProtocol.LostRaceMeansProgress | src/ponypp/mpmc.c:104-116 | a genuine compare-and-swap failure means another thread has won that ticket |
| MpmcProtocol.ReloadMeansProgress | src/ponypp/mpmc.c:96-154 | a thread that starts over because the sequence is ahead of its position does so only when the counter has moved past that position, in a reachable state, enqueue and dequeue alike |
| MpmcProtocol.QuiescentSize | src/ponypp/mpmc.c:160-167 | with no call in progress the counters differ by the number of queued values, all published |
| MpmcProtocol.EmptyDespiteCompletedEnqueue | src/ponypp/mpmc.c:139-150 | a reachable state in which an enqueue has completed and the ring still looks empty |
| MpmcProtocol.EmptyMeansEmpty | src/ponypp/mpmc.c:139-150 | without a stalled producer the answer empty means the queue is empty |
| MpmcRing.MpmcQueue.constructor | src/ponypp/mpmc.c:51-85 | capacity is rounded up to a power of two of at least 2 and the ring starts sound and empty |
| MpmcRing.MpmcQueue.SlotOf | src/ponypp/mpmc.c:99-99 | masking a position selects its slot index modulo the capacity |
| MpmcRing.MpmcQueue.Act | src/ponypp/mpmc.c:96-156 | one atomic action on the fields is one step of the protocol |
| MpmcRing.MpmcQueue.Enqueue | src/ponypp/mpmc.c:93-124 | alone, an enqueue appends its value and fails if and only if the ring is full |
| MpmcRing.MpmcQueue.Dequeue | src/ponypp/mpmc.c:127-156 | alone, a dequeue removes and returns the oldest value and fails if and only if the ring is empty |
| MpmcRing.MpmcQueue.Size | src/ponypp/mpmc.c:160-167 | alone, the counters give the number of queued values |
| GcTheorems.NoStaleIffPointsBack | src/ponypp/gc.c:294-328 | no survivor's copy keeps a pointer into the old space if and only if survivors only point to the data start of earlier objects |
| GcTheorems.GraphPreserved | src/ponypp/gc.c:294-328 | under that discipline copies point to each other exactly as the originals did |
| GcTheorems.CopyIsFullyForwarded | src/ponypp/gc.c:298-323 | under that discipline a copy is the original with every pointer forwarded |
| GcTheorems.RootRelocated | src/ponypp/gc.c:331-346 | an exact root to an object that only points back becomes the data pointer of a copy of equal size and forwarded contents |
| GcTheorems.OtherRootsStay | src/ponypp/gc.c:331-346 | a root that is no object's data pointer is left as it is |
| GcTheorems.RootIsOwnCopyIff | src/ponypp/gc.c:331-346 | it is that object's own copy if and only if no earlier survivor's copy has the same contents |
| GcTheorems.OwnCopyIffFirstOfItsContents | src/ponypp/gc.c:331-346 | where all survivors point back and plain data avoids to-space: if and only if no earlier survivor has the same words |
| GcTheorems.RootMovesToFirstTwin | src/ponypp/gc.c:331-346 | where no survivor's word lies in to-space already, and whatever survivors point to: a root is relocated if and only if some survivor has its object's words and only earlier pointers, and then to the first such survivor's copy |
| GcTheorems.PlainWordLooksForwarded | src/ponypp/gc.c:331-346 | with a plain word that is an address in to-space: all survivors point back, no two have equal words, and a root moves to another object's copy |
| GcTheorems.SelfPointerGoesStale | src/ponypp/gc.c:298-323 | a self-pointing object's copy keeps the old address, and a root to it dangles |
| GcTheorems.EqualTwinsShareACopy | src/ponypp/gc.c:336-343 | two roots to equal objects both move to the first one's copy |
| GcTheorems.CollectionKeepsClean | src/ponypp/gc.c:294-328 | if every word is an earlier object's data pointer or lies outside both halves, the same holds after a collection |
| GcRuns.RunKeepsDiscipline | src/ponypp/gc.c:108-356 | in every run of allocations, disciplined writes and collections the table tiles its space and every object is clean |
| GcRuns.EveryCollectionKeepsTheGraph | src/ponypp/gc.c:246-356 | in every such run every collection leaves no stale pointer and keeps every edge and every non-edge |
| GcModel.CopiesShape | src/ponypp/gc.c:169-202 | copies tile to-space from its start and their bytes are the live bytes |
| GcModel.CopiesCount | src/ponypp/gc.c:169-202 | there is one copy a survivor |
| GcModel.CopyAtRank | src/ponypp/gc.c:294-300 | survivors keep their relative order: the copy of an object sits at its rank among them |
| GcModel.PatchAdvances | src/ponypp/gc.c:300-323 | one round of patching in place advances the forwarding of all marked words by one object |
| GcMarking.DrainedMeansReachable | src/ponypp/gc.c:259-292 | when the worklist is drained, marked means reachable, both ways |
| GcModel.ReachableIff | src/ponypp/gc.c:206-292 | reachable means: on a chain from an object 8 below some root, each object with a word that addresses any byte of the next, from its header to its end |
| GcMarking.QueueBounded | src/ponypp/gc.c:220-240 | the worklist never holds an object twice, so it is bounded by the table and the loop ends |
| Gc.GCHeap.constructor | src/ponypp/gc.c:65-97 | an empty heap of page-rounded halves, 64 KiB by default |
| Gc.GCHeap.ObjHeader | src/ponypp/gc.c:34-58 | the object with exactly that data pointer in the space holding it, or none |
| Gc.GCHeap.Alloc | src/ponypp/gc.c:108-140 | appends an aligned object at the end of the table and the space, or returns NULL exactly when it does not fit; bytes in use are bytes allocated minus freed |
| Gc.GCHeap.Mark | src/ponypp/gc.c:259-292 | afterwards an object is marked if and only if it is reachable from the exact roots through words pointing into objects |
| Gc.GCHeap.PatchPointers | src/ponypp/gc.c:303-323 | in place, every word of a marked object equal to the old data pointer becomes the new one |
| Gc.GCHeap.CopyMarked | src/ponypp/gc.c:294-328 | copies exactly the marked objects in order, patches all pointers and counts the freed bytes |
| Gc.GCHeap.RelocateRoots | src/ponypp/gc.c:331-346 | every root becomes what the relocation rule says, null roots are skipped |
| Gc.GCHeap.Flip | src/ponypp/gc.c:142-166 | the halves and their tables change places |
| Gc.GCHeap.Collect | src/ponypp/gc.c:246-356 | a collection keeps exactly the reachable objects, in order: for every root that is an object's address plus 8 that object survives, and, if it only points back, the root becomes the data pointer of an object of its size with its words forwarded; the table tiles the space and the byte accounting is exact |
| Leb128.RoundTripU | src/wasm.c:65-72 | an unsigned operand decodes to itself and decoding stops behind it |
| Leb128.RoundTripS | src/wasm.c:73-86 | the same for signed operands, negative ones included |
| Leb128.StandardExamples | src/dwarf.c:17-41 | the encodings of the examples in section 7.6 of DWARF version 5 |
| Leb128.LengthU | src/dwarf.c:17-26 | n bytes are enough if and only if the value is below 128 to the n |
| Leb128.LengthS | src/dwarf.c:28-41 | n bytes are enough if and only if the value lies in the signed range of 7n bits |
| Leb128.ShortestU | src/wasm.c:65-72 | no shorter byte string denotes the same unsigned value |
| Leb128.ShortestS | src/wasm.c:73-86 | no shorter byte string denotes the same signed value |
| Leb128.OperandLengths | src/dwarf.c:17-41 | 32-bit operands take at most 5 bytes and 64-bit operands at most 10 |
| Leb128.WriteU | src/wasm.c:65-72 | the loop appends exactly that encoding |
| Leb128.WriteS | src/wasm.c:73-86 | the loop stops at the byte whose bit 6 carries the sign and has then appended exactly that encoding |
| I32.BitwiseIsLogical | src/wasm.c:1035-1036 | bitwise and/or are the logical connectives on 0 and 1; for or on nothing else |
| I32.DivisionIs | src/wasm.c:1026-1026 | signed division: no value exactly for a zero divisor and the one quotient that does not fit, else rounding toward zero, the remainder with the sign of the dividend |
| Bits.BitByBit | src/codegen.c:1403-1413 | and, or and exclusive or, bit by bit |
| WasmCorrect.ExprCorrect | src/wasm.c:828-1072 | an expression's code pushes exactly its 32-bit value on any stack, leaves the locals alone, and traps where evaluation faults |
| WasmCorrect.OperatorAgrees | src/wasm.c:1023-1043 | each operator's instruction computes the source operator, unsigned comparison when either side is U32 |
| SourceSemantics.ComparisonsInNumbers | src/wasm.c:1027-1043 | every comparison on particular operands, signed and unsigned |
| WasmCompiler.MarkedWhen | src/wasm.c:1091-1098 | a new variable is marked U32 exactly when its annotation is the bare word, or, under any annotation but the bare word String, its initializer is |
| WasmCorrect.StmtCorrect | src/wasm.c:1074-1271 | for every statement with up to 64 locals, at any nesting of ifs and of loops, if each jump finds the if nesting of its own loop on record, the code ends with the same variables and the same outcome as the source, divergence included |
| WasmCorrect.ShallowCorrect | src/wasm.c:1074-1271 | so for every statement at most 32 loops deep |
| WasmCorrect.LoopCorrect | src/wasm.c:1166-1189 | block/loop/eqz/br_if 1/body/br 0 is the source loop, iteration for iteration |
| WasmCorrect.BranchCorrect | src/wasm.c:1135-1155 | an if adds one label between a jump and its loop, and jumps still hit that loop or its block |
| WasmCorrect.JumpCorrect | src/wasm.c:849-858 | the depth if_depth - loop_base addresses the innermost loop, one more its enclosing block |
| WasmCorrect.NoLooseJump | src/wasm.c:849-858 | with no loop on record a statement whose jumps are aimed never ends in a jump, and a loop never does |
| WasmScope.TablesAfter | src/wasm.c:338-352 | compiling a statement declares exactly its variables, keeps the U32 marks right, restores the if nesting and adds no loop record |
| WasmScope.ShallowIsAimed | src/wasm.c:1178-1183 | up to 32 loops deep each jump finds its own loop on record, and every record is there again behind a statement |
| WasmProgram.EntryCorrect | src/wasm.c:2687-2762 | the entry function of a body whose jumps find their loops on record declares one zeroed local a variable and returns what the body returns, or 0 |
| WasmProgram.ShallowEntry | src/wasm.c:1178-1183 | at most 32 nested loops are enough for that |
| WasmProgram.TypedRun | src/wasm.c:1035-1036 | a program whose connectives have comparisons, connectives, `not` and Boolean variables as operands never meets a non-Boolean one, on any run |
| WasmProgram.TypedEntryTerminatesAlike | src/wasm.c:1166-1189 | the code of a typed entry ends if and only if the source does |
| WasmProgram.CompiledAsSeen | src/wasm.c:828-1271 | for every program: its code is that of the program without labelled jumps, wrapped annotations, names not seen yet and operators not known |
| WasmProgram.SeenEntryCorrect | src/wasm.c:2687-2762 | so the entry of any program whose seen form is in the fragment does what that seen form does: same result and variables, same trap, or no end |
| WasmProgram.ParsedBreakDiverges | src/parser.c:603-610 | a parsed `while true do break end` stops in the source and never in the code |
| WasmProgram.ParsedU32ComparesSigned | src/wasm.c:1091-1098 | `var x: U32 = 4000000000; return x > 1`: the source returns 1, the code of the parsed program 0, that of the bare annotation 1 |
| WasmOperators.SignednessMatters | src/wasm.c:1037-1043 | signed and unsigned order agree if and only if the operands' top bits do |
| WasmProgram.UnseenNameReadsZero | src/wasm.c:859-877 | `while true do if x then return x end; x = 5 end` returns 5 in the source and never ends in the code |
| WasmProgram.RemainderReturnsZero | src/wasm.c:1066-1066 | `return 7 % 4` returns 3 in the source and 0 in the code |
| WasmOperators.BinaryRightIff | src/wasm.c:1022-1066 | the code of `l op r` pushes its value or traps with it, for all operands at any place in any program, if and only if op is none of the six bit, shift and remainder operators |
| WasmOperators.UnaryRightIff | src/wasm.c:980-995 | likewise for prefix operators: if and only if it is not `~` |
| WasmOperators.ComparisonIsNativeIff | src/codegen.c:170-170 | for any operand values an ordered comparison of the emitted code is that of the native code if and only if both take it for unsigned or both for signed, or the top bits agree |
| WasmOperators.NativeAgrees | src/codegen.c:1395-1436 | an expression in which no comparison or shift depends on the sign of a negated U32 has one value in both |
| WasmOperators.NegatedU32Differs | src/codegen.c:1426-1430 | `-x > 1` with x a U32 holding 1 is true in native code and false in the emitted code |
| WasmOperators.UnsupportedReadsZero | src/wasm.c:1066-1066 | exactly the six bit, shift and remainder operators compile to constant 0 |
| WasmDeepLoops.LoopPass | src/wasm.c:1166-1189 | one pass of any loop whose body's jumps are aimed at another if nesting, d less than its own: break leaves the loop and d ifs around it, continue the loop and d - 1 of them, and only d = 0 is a new pass |
| WasmDeepLoops.LoopRightIff | src/wasm.c:1179-1183 | for all conditions, starts and loop-free bodies a loop's code does what the source loop does, if and only if it is one of the first 32 or no if stands between it and the 32nd |
| WasmDeepLoops.RecordsLeft | src/wasm.c:1179-1183 | for every statement, how many of the loop records are left behind it: a loop that found the table full drops one that is not its own |
| WasmDeepLoops.AllRightIff | src/wasm.c:849-858 | with any tables: all loop-free code is right if and only if the last record is the if nesting of the loop it stands in |
| WasmDeepLoops.BehindRightIff | src/wasm.c:1179-1183 | behind any statement at any depth, all loop-free code is right if and only if a record is left and it is that of the loop around |
| WasmDeepLoops.NestIsAimed | src/wasm.c:1179-1183 | any number of loops directly around one another, beyond 32 too, keep the jumps of a loop-free innermost body aimed |
| WasmDeepLoops.NestLeaves | src/wasm.c:1179-1183 | behind a nest that goes beyond the 32nd loop one record fewer is left for each loop that does |
| WasmDeepLoops.DeepBreak | src/wasm.c:1166-1189 | a loop with a break in an if inside n endless loops, for every n: the source returns 1, the code 1 if n is below 32 and otherwise 2 |
| WasmBinary.DecodeEncode | src/wasm.c:1166-1189 | the bytes of any structured code decode to that code and nothing behind them is touched |
| WasmBinary.OpcodesWritten | src/wasm.c:828-1072 | the bytes of the other instructions |
| WasmBinary.EncodeInjective | src/wasm.c:828-1271 | different code has different bytes |
| WasmEmitter.WasmGen.LocalEnsure | src/wasm.c:338-352 | the first slot of that name, or a new one, or -1 if and only if the name is new and there are 64 locals |
| WasmEmitter.WasmGen.EmitExpr | src/wasm.c:828-1072 | appends exactly the bytes of the expression's code and changes no table |
| WasmEmitter.WasmGen.EmitStmt | src/wasm.c:1074-1271 | appends exactly the bytes of the statement's code and leaves the tables as the compiler does |
| WasmEmitter.WasmGen.EmitEntry | src/wasm.c:2687-2762 | wraps the body as a code-section entry: size, locals, heap-pointer prologue, code, default result, end |
| WasmEmitter.EntryRoundTrip | src/wasm.c:2733-2762 | such an entry reads back as its locals, heap base and code, and its size is exact |
| WasmEmitter.EntryWritten | src/wasm.c:2733-2762 | two entries byte by byte |
| WasmEmitter.BytesMeanTheSource | src/wasm.c:2687-2762 | the bytes of an entry function, decoded and run, do what the source body does |
| ParserGrammar.ParsesAsWritten | src/parser.c:1124-1251 | any written expression, redundant parentheses included, parses at any level it fits to the tree it means |
| ParserGrammar.Precedence | src/parser.c:1146-1206 | for any operands and any two operators of the ladder, from `or` up to `* / %`, each tier named: `a o1 b o2 c` parses to `(a o1 b) o2 c` if and only if o2 is in no tighter tier than o1, else to `a o1 (b o2 c)` |
| ParserGrammar.OperandForms | src/parser.c:1210-1246 | literals, names, parenthesised expressions, and operands behind `!`, `-` and `~` are operands, each prefix giving its own operator |
| ParserGrammar.RangeForms | src/parser.c:663-717 | `lo..hi` is a range, `lo..` without an end is the number and its dots are consumed |
| ParserGrammar.MissingOperand | src/parser.c:1218-1246 | a prefix operator in front of nothing is that operator without an operand |
| ParserGrammar.RoundTrip | src/parser.c:1124-1251 | every tree of the ladder, minimally parenthesised, parses to itself and exactly its tokens are consumed |
| ParserGrammar.WrittenFits | src/parser.c:1124-1251 | the printer's parentheses make every tree fit the grammar without changing its meaning |
| ParserGrammar.ParenthesesNeeded | src/parser.c:1210-1218 | without those parentheses the same tokens no longer parse to the tree |
| ParserGrammar.DanglingOperator | src/parser.c:1135-1137 | any operator with no right operand is swallowed silently behind any expression, looser or tighter |
| ParserGrammar.OperandsKept | src/parser.c:1124-1251 | for every token list: the leaves of the tree are the operand tokens consumed, in order, none lost or invented |
| ParserGrammar.TreeIffBegins | src/parser.c:1124-1251 | a list of the ladder's tokens parses to a tree if and only if it begins with an operand or prefix operator behind any number of opening parentheses, and otherwise to nothing |
| ParserGrammar.UnclosedParenthesis | src/parser.c:1212-1217 | a parenthesis that is never closed changes nothing |
| ExpressionParser.Parser.ParseBinaryOp | src/parser.c:1124-1144 | the shared loop returns what the grammar says for its level and stands where it says |
| ExpressionParser.Parser.ParseUnary | src/parser.c:1210-1246 | parentheses and prefix operators, missing operands included |
| ExpressionParser.Parser.ParsePrimary | src/parser.c:663-717 | leaves and ranges; a range without an end still consumes its dots |
| ExpressionParser.Parser.ParseExpression | src/parser.c:1249-1251 | the entry of the ladder |
| ParseCompile.WrittenExpressionRuns | src/parser.c:1124-1251 | an expression's tokens, parsed and compiled, push exactly its value |
| StringSpec.FindFromIsLeast | src/wasm.c:1640-1684 | find_from answers the least match at or behind its start, -1 if and only if there is none |
| StringSpec.SliceHolds | src/wasm.c:1563-1600 | the slice holds exactly the bytes from its start on and before its end, where the end is not negative, in their order |
| StringSpec.SplitJoin | src/wasm.c:1686-1737 | joining a text's fields with the separator gives the text back |
| StringSpec.FieldsAreFree | src/wasm.c:1686-1737 | no field contains the separator |
| StringSpec.FieldsAgreeIff | src/codegen.c:2130-2130 | emitted and native field differ if and only if the index is negative and the first field is not empty |
| StringSpec.FieldsDiffer | src/codegen.c:2130-2130 | field -1 of "ab" is nothing in the emitted code and "ab" in the native one |
| StringSpec.ReplaceIsSplitJoin | src/wasm.c:1748-1777 | replacing all matches is splitting at the pattern and joining with the replacement; replacing a pattern by itself changes nothing |
| StringSpec.ReplaceEndsIff | src/wasm.c:1748-1777 | the replacement loop ends if and only if the pattern is not empty, and then within one turn more than the text has bytes and with every match replaced |
| StringSpec.CompareIsTotalOrder | src/wasm.c:2257-2285 | strcmp is a total order whose ties are equalities |
| StringSpec.CompareIsByteOrder | src/wasm.c:2257-2285 | -1 if and only if the first text is a proper prefix of the second or has the smaller byte, unsigned, where they first differ; 1 the other way round; 0 for equal texts |
| StringSpec.DecimalReadsBack | src/wasm.c:1518-1559 | a printed number reads back as itself |
| StringSpec.DecimalWritten | src/wasm.c:1518-1559 | digits are written one by one behind those before them, with a minus sign in front of negative numbers |
| StringSpec.DecimalFits | src/wasm.c:1518-1559 | every 32-bit number, the least one included, takes at most eleven characters |
| LinearMemory.BlocksAreApart | src/wasm.c:1442-1465 | allocated blocks are aligned to 8 and never overlap |
| LinearMemory.TextPersists | src/wasm.c:1442-1465 | a text below the heap pointer survives every change above it |
| LinearMemory.Memory.Alloc | src/wasm.c:1442-1465 | bumps by the size rounded up to 8, grows the memory by whole pages of 64 KiB only when needed and by no page too many, changes nothing below |
| LinearMemory.Memory.StrLen | src/wasm.c:1467-1480 | the length of the text at that address |
| LinearMemory.Memory.Concat | src/wasm.c:1482-1516 | a fresh NUL-terminated concatenation; nothing below the old heap pointer changes |
| LinearMemory.Memory.Itoa | src/wasm.c:1518-1559 | the decimal text, inside its 12-byte block, for every i32 |
| LinearMemory.Memory.Slice | src/wasm.c:1563-1600 | a fresh clamped slice; a negative end is the end of the text |
| LinearMemory.Memory.StrEq | src/wasm.c:1602-1624 | 1 if and only if the texts are equal |
| LinearMemory.Memory.FindFrom | src/wasm.c:1640-1684 | the search loops compute the least match |
| LinearMemory.Memory.Field | src/wasm.c:1686-1737 | a fresh copy of the field, the index compared unsigned |
| LinearMemory.Memory.Replace | src/wasm.c:1748-1777 | a fresh text with every match of a non-empty pattern replaced |
| LinearMemory.Memory.Chr | src/wasm.c:1739-1746 | one low byte as a text |
| LinearMemory.Memory.StrCmp | src/wasm.c:2257-2285 | -1, 0 or 1 as the first text precedes, equals or follows the second |
| ClassLayout.ClassAgrees | src/wasm.c:298-332 | within an actor, collector and emitter agree method by method, across the 64-method cap and the skipped entry |
| ClassLayout.LayoutAgreesIff | src/wasm.c:2535-2583 | for every program: as many bodies as declared, each from the actor and method recorded with its index (14 imports + 22 runtime bodies + position), if and only if every recorded actor with methods is the first of its name and findable under it, and no actor behind the 16th brings bodies |
| ClassLayout.EveryMethodOnce | src/wasm.c:279-335 | for each of the first 16 actors: the first 64 `fun`, `new` and `be` members, in order, without the `fun main` and `new create` of an actor named main, have one table entry each and no other member has one; indices are consecutive from 36 across actors; and where every actor is in place each has exactly one body, at its index, and there are no others |
| ClassLayout.ActorsPicked | src/wasm.c:279-284 | the actors meant are those of the program, each once, in their order |
| ClassLayout.CountsAgreeIff | src/wasm.c:2684-2806 | declared and emitted functions are equally many if and only if what actors lose to an earlier one of their name is what actors behind the 16th add; up to 16 actors, if and only if none records more methods than the first of its name |
| ClassLayout.DistinctNamesAreLaidOut | src/wasm.c:2535-2583 | distinct names of at most 63 characters are enough, for any number of actors |
| ClassLayout.DuplicateNamesBreakTheModule | src/wasm.c:2780-2806 | two actors of one name: with one and two methods three are declared and two emitted; with one each the counts agree and the second body is misplaced |
| ClassLayout.LongNameBreaksTheModule | src/wasm.c:2535-2583 | an actor with a name over 63 characters and one method: one function declared, none emitted |
| ClassLayout.ClassTable.CollectMembers | src/wasm.c:298-332 | the collector's member loop |
| ClassLayout.ClassTable.CollectClasses | src/wasm.c:279-335 | the collector, up to 16 classes |
| ClassLayout.ClassTable.EmitMembers | src/wasm.c:2789-2801 | the emitter's member loop |
| ClassLayout.ClassTable.EmitBodies | src/wasm.c:2780-2806 | the emitter's traversal |
| ActorModel.ExactlyOnceInOrder | src/ponypp/runtime.c:336-370 | in every run each actor has been handed a prefix of its accepted sends, in order and once each, the rest is queued, and dedup has nothing to drop |
| ActorModel.AcceptedIsSent | src/ponypp/runtime.c:221-274 | in every run, sender and payload of what an actor has accepted are, in order, those of the sends to it that were answered 0, handlers' sends included, and what its behaviour was handed is a prefix of them |
| ActorModel.RunKeepsInv | src/ponypp/runtime.c:221-403 | creation, sends, ticks with arbitrary handlers, starts, crashes, restarts and limit changes keep that |
| ActorModel.SentIsDeliveredPlusQueued | src/ponypp/runtime.c:272-272 | messages sent are messages delivered plus messages queued |
| ActorModel.NeverDuplicate | src/ponypp/runtime.c:598-617 | an accepted message is never taken for one already delivered |
| ActorModel.TurnsServe | src/ponypp/runtime.c:336-368 | a tick hands every running actor with mail exactly its oldest message |
| ActorModel.TicksDrain | src/ponypp/runtime.c:336-370 | n ticks hand a running actor the first n messages of its mailbox, whatever is sent meanwhile |
| ActorModel.TicksCount | src/ponypp/runtime.c:368-370 | the tick counter counts ticks, whatever is sent in them |
| ActorModel.RefusalCodes | src/ponypp/runtime.c:221-227 | which refusal is answered when, -1, -2, -3 and -7, and that a refused send changes nothing |
| ActorRuntime.NodesApart | src/ponypp/runtime.c:142-177 | no message node is in two places: free list, one mailbox position, in flight |
| ActorRuntime.AppendKeeps | src/ponypp/runtime.c:262-271 | linking a node behind the tail keeps every list, tail pointer and count right |
| ActorRuntime.TakeKeeps | src/ponypp/runtime.c:347-351 | so does detaching the head |
| ActorRuntime.GotKeeps | src/ponypp/runtime.c:142-152 | so does popping the free list or allocating |
| ActorRuntime.PutKeeps | src/ponypp/runtime.c:154-177 | so does recycling a node, or freeing it at 4096 |
| ActorRuntime.Runtime.Send | src/ponypp/runtime.c:221-274 | a send does to the mailboxes what the model says, with its code |
| ActorRuntime.Runtime.Delivered | src/ponypp/runtime.c:598-617 | the search through the delivered ids, remembering a new one |
| ActorRuntime.Runtime.Turn | src/ponypp/runtime.c:346-367 | one actor's turn is the model's turn, and its node is recycled |
| ActorRuntime.Runtime.Tick | src/ponypp/runtime.c:336-370 | a tick is the model's tick |
| ActorRuntime.Runtime.Start | src/ponypp/runtime.c:372-403 | every actor is running afterwards |
| WorkStealing.NothingLost | src/ponypp/runtime.c:712-756 | in every interleaving of locked operations, what was pushed is what was taken plus what is queued, and no ring exceeds 64 |
| WorkStealing.HandedOutOnce | src/ponypp/runtime.c:712-756 | messages pushed once are handed out at most once |
| WorkStealing.WorkDeque.Push | src/ponypp/runtime.c:712-724 | appends to the sequence the slots hold, refused if and only if it has 64 |
| WorkStealing.WorkDeque.PopLocal | src/ponypp/runtime.c:726-740 | removes the newest and clears its slot |
| WorkStealing.WorkDeque.StealFrom | src/ponypp/runtime.c:742-756 | removes the oldest and clears its slot |
| WorkScheduler.NothingToStealIff | src/ponypp/runtime.c:865-891 | a thief leaves with nothing if and only if it is alone or all other rings and the overflow ring are empty |
| WorkScheduler.RobsNearest | src/ponypp/runtime.c:865-884 | a thief takes the oldest message of the nearest ring behind it, round the circle, that is not empty |
| WorkScheduler.OwnThenOverflow | src/ponypp/runtime.c:884-905 | a worker serves its own newest message first, and with all other rings empty takes the overflow ring's newest |
| WorkScheduler.PlacedWhere | src/ponypp/runtime.c:835-858 | a message goes into the preferred ring if that has room, else into the overflow ring, at its end, and nowhere exactly if neither has fewer than 64; no other ring changes |
| WorkScheduler.TickConserves | src/ponypp/runtime.c:893-925 | what a tick removes from the rings is, message for message, what its workers take out |
| WorkScheduler.TakenIsHandledOrDropped | src/ponypp/runtime.c:907-921 | every message taken out is either given to an actor or freed unhandled, and no message both |
| WorkScheduler.NothingDroppedIff | src/ponypp/runtime.c:911-921 | no message of any content is freed unhandled if and only if an actor is running at every worker's turn |
| WorkScheduler.TickMakesProgress | src/ponypp/runtime.c:893-925 | with several workers a tick takes something out unless everything is empty |
| WorkScheduler.DrainsIff | src/ponypp/runtime.c:865-925 | every content has left the rings within as many ticks as there are messages if and only if there is more than one worker |
| WorkScheduler.LoneWorkerStarvesOverflow | src/ponypp/runtime.c:869-869 | a lone worker never empties the overflow ring |
| WorkScheduler.MNScheduler.Enqueue | src/ponypp/runtime.c:835-858 | preferred ring, then overflow ring, then refusal |
| WorkScheduler.MNScheduler.Steal | src/ponypp/runtime.c:865-891 | the cyclic search takes the oldest message of the first victim, else the newest of the overflow ring |
| WorkScheduler.MNScheduler.RunTick | src/ponypp/runtime.c:893-925 | every worker's turn in order: what is taken out, what an actor handles of it, and the count of delivered messages |
| DwarfLine.PositionsRoundTrip | src/dwarf.c:313-384 | for all rows, the DWARF state machine recovers every file and line, every end of sequence, and one final end |
| DwarfLine.ProgramWritten | src/dwarf.c:313-384 | a program of two rows byte by byte: address, special opcode, column, advance, row, end |
| DwarfLine.FileAndEndWritten | src/dwarf.c:313-340 | a change of file and an end of sequence byte by byte |
| DwarfLine.RunBody | src/dwarf.c:313-384 | exactly which table it reconstructs, addresses and columns included |
| DwarfLine.AddressesSurviveIff | src/dwarf.c:313-384 | for all rows in any number of sequences: every address comes back if and only if each row either rises above everything since the last end by a long line step or stands where its line opcode takes the previous row; then an end stands at the row before it |
| DwarfLine.OneSequenceSurvivesIff | src/dwarf.c:313-384 | for one sequence: if and only if addresses never fall and no line step is short |
| DwarfLine.AddressesDrift | src/dwarf.c:357-360 | two rows at address 16 come back at 17 and 18 |
| DwarfLine.ColumnsLag | src/dwarf.c:369-373 | every row comes back with the last column given before it in its sequence |
| DwarfLine.ColumnsSurviveIff | src/dwarf.c:369-373 | so all columns come back if and only if none was given |
| DwarfLine.DwarfLineProgram.EmitBody | src/dwarf.c:313-384 | the loop appends exactly that program |
| JsonText.ParseStringify | src/codegen.c:2225-2225 | parsing the text of any ordered list of pairs gives the list back, quotes, backslashes, newlines and tabs included |
| JsonText.ParseAnyLayout | src/codegen.c:2225-2225 | so does any other layout: any white space around the punctuation, and values without quotes, which run to the next comma or brace |
| JsonText.UnescapeEscape | src/codegen.c:2225-2225 | an escaped text reads back as itself and reading stops behind its quote |
| JsonText.EscapesWritten | src/codegen.c:2225-2225 | quote, backslash, newline and tab are written as escapes, every other character as itself |
| JsonText.PairsWritten | src/codegen.c:2225-2225 | the text of two pairs, punctuation and all |
| JsonText.StringifyInjective | src/codegen.c:2225-2225 | different objects have different texts |
| JsonText.StandardEscapesIff | src/codegen.c:2225-2225 | other writers' one-letter escapes are read as meant if and only if they are not \b, \f or \r |
| JsonText.StringifyIsText | src/codegen.c:2225-2225 | the printed text of NUL-free pairs is NUL-free, so its strlen is its length |
| JsonRuntime.LookupPut | src/codegen.c:2225-2225 | set changes its own key and no other |
| JsonRuntime.PutShape | src/codegen.c:2225-2225 | a key keeps its position, a new one comes last |
| JsonRuntime.PutKeepsDistinct | src/codegen.c:2225-2225 | set never duplicates a key |
| JsonRuntime.PutSurvivesText | src/codegen.c:2225-2225 | what was set is found again after stringify and parse |
| JsonRuntime.ReadEscaped | src/codegen.c:2225-2225 | the unescape loop, inside its growing buffer |
| JsonRuntime.WriteEscaped | src/codegen.c:2225-2225 | the escape loop, inside its growing buffer |
| JsonRuntime.PnyJson.Read | src/codegen.c:2225-2225 | the parser's loop and cursor |
| JsonRuntime.PnyJson.Stringify | src/codegen.c:2225-2225 | the printer, with room made for every piece beforehand |
| JsonRuntime.PnyJson.Get | src/codegen.c:2225-2225 | the first pair with that key, else the empty text |
| JsonRuntime.PnyJson.Set | src/codegen.c:2225-2225 | replaces the first pair with that key, else appends |

## Left out

- Weak memory orderings and 64-bit wrap-around of ring positions: actions are sequentially consistent and positions unbounded.
- Allocation failure everywhere, and a memory.grow that fails.
- Heaps of 4 GiB and more, where the collector's 32-bit object sizes would be cut off; objects are table entries of whole words rather than raw bytes, so unaligned words are not seen.
- The extra flip the actor runtime performs after a collection.
- The collector's lookup of a fresh copy in its own table before patching, which always succeeds.
- Statements and expressions of the Wasm back end beyond integers, Booleans, names, arithmetic, comparisons, connectives, assignments, if, while, return and jumps: calls, strings, floats, for, match, sends and classes as values.
- Literals of 2^63 and more, which the program reads with atoll.
- Native code evaluates `and`/`or` lazily, the emitted Wasm strictly; the source semantics here is the strict one.
- Names that are fields of the enclosing class: they take the back end to memory accesses, so the model is of function bodies outside classes.
- Expression syntax beyond the ladder and its leaves (calls, fields, indexing, strings, recover, lambdas, foreign calls): the parser's answer there is the value Outside.
- The lexer, statement and declaration parsing, types, capabilities.
- WasmCorrect.StmtCorrect: says nothing about runs in which a connective meets an operand other than 0 or 1, because the emitted bitwise operators then differ from the logical ones; WasmProgram.TypedRun says which programs have no such run.
- ExpressionParser.Parser.ParsePrimary: does not say where the cursor stands when the syntax is outside the model.
- Texts of 2 GiB and more in the emitted string routines, and 32-bit wrap-around of their addresses.
- LinearMemory.Memory.Replace: requires a non-empty pattern, because the emitted loop does not end on an empty one.
- Native comparisons against literals above 2147483647, which C takes for 64-bit numbers.
- The emitted string routines are modelled as methods with the same loops over one memory, not executed instruction by instruction.
- ActorRuntime.Runtime.Send: message nodes live in an explicit memory keyed by address instead of one Dafny object a node; links, tail pointers and reuse of addresses are kept, the method-name and argument buffers are values.
- Handlers that start, stop or crash actors: those happen between ticks here, and a handler only sends.
- Synchronous calls, actor destruction, hot upgrade, gas accounting, supervision policy (its state changes are arbitrary here), serialisation.
- WorkStealing.NothingLost: an unlocked read of a ring's count before its lock is taken can only make an operation give up early, which is a run without that operation.
- The scheduler's choice of the receiving actor, which is the first running one whatever the message was meant for.
- The DWARF header with its directory and file tables, and the is_stmt register.
- JSON values other than strings when writing; other values are read as raw text, trailing white space included.
- Sockets, files, WASI functions, HTTP, crypto, regular expressions, packages, the debugger front end and the REPL: input and output, or calls into code that is not part of this model.
