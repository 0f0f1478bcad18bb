# A verified model of the lifter and its passes

The repository is a static binary translator: it lifts x86-64 machine code to LLVM IR and rewrites
that IR with passes of its own. This project models the parts of it that are hardest to get right
and proves what they promise.

* **Register localisation** (`machine.dfy`, `localize.dfy`, `regions.dfy`, `soundness.dfy`,
  `tls_pass.dfy`, `register_layout.dfy`). Lifted code keeps the CPU registers in one thread-local structure. The pass copies
  them into stack slots at a loop preheader or at the start of a block, redirects the uses inside,
  writes the slots back at every exit and wraps every call that can see the registers. A small
  machine with registers, slots, memory and a call trace gives the code its meaning; the pass is
  proved to leave every run of every function unchanged, in every environment and for every length of
  run. Besides what LLVM guarantees it assumes that aliases lie inside the register structure and
  that those named after different registers do not overlap (`Localize.WellFormed`), that intrinsics
  and ordinary memory accesses leave the structure alone, as the machine is made, and that all
  aliases named after one register start at the same offset. Given the others, the last is shown to
  be exactly what soundness needs, for the loop pass and for the block pass. Lifted code does not
  meet it by itself: an alias is named after its enclosing register, so the alias of `AH` is
  `RAX_2217_...` beside `RAX_2216_...`, and the pass gives both of them one slot. What the pass takes
  for a register, how wide its slots are, which calls it guards and which blocks it rewrites is said
  once more by name and size, apart from the functions it is built from.
* **Dead flag stores** (`flag_opt.dfy`), on the same machine: the pass decides alias by alias, which
  is sound exactly when no loaded alias shares a byte with an erased one.
* **The type language** (`types.dfy`, `type_printer.dfy`, `type_parser.dfy`, `type_round_trip.dfy`,
  `type_layout.dfy`, `type_letters.dfy`, `type_accepted.dfy`). A printed type is read back, inside any surroundings, as its normal form, with
  the parser's id table in step with the printer's id map; the exact condition is proved in both
  directions. The documentation of the grammar spells a linked list as `=0{*%0i}`; the code refuses
  it, because the pointer's target has no body yet when its size is asked for, and the model follows
  the code. Padding accounts for every byte of a structure exactly when its elements do not overlap,
  and a structure read back has its elements where they were exactly when each comes back as wide as
  it was stored and aligned.
* **Lifting** (`control_flow.dfy`, `lifted_graph.dfy`, `lifter.dfy`, `lifted_code.dfy`). The work list terminates,
  decodes each address once, and ends with blocks for exactly the addresses that can be reached; the
  block graph simulates the machine in both directions, delay slots and all instruction categories
  included.
* **Indirect jumps** (`indirect_jump.dfy`). The two switches and the chain of comparisons
  are characterised completely: which block each program counter selects under any load bias, and
  exactly when a relocated target is reached.
* **The program's bytes** (`byte_map.dfy`, `program.dfy`). A map keyed by end addresses, with flags on
  every byte, represents the sequence of successful mappings under any interleaving of mapping and
  declaring.
* **Address arithmetic** (`xref_folder.dfy`, `stack_frame.dfy`, `pointers.dfy`, `segments.dfy`,
  `sorting.dfy`, `words.dfy`). Folding in 64 bits against words of each width; the layout of recovered stack
  frames; indexed pointers; the merging of segments as a relocation.
* **Print arguments** (`printf_args.dfy`), against section 3.2.3 of the System V AMD64 psABI.

Classes are used where the source updates an object or shared state in place: the localisation pass,
the flag pass, the type printer and parser, the lifter, the translation context of an indirect jump
and the program. Each method is tied to a function or a predicate on values, and the theorems are
about those.

Where the code falls short of its evident purpose, the exact condition is stated: aliases of one
register at several offsets (`Soundness.BlockPassSoundIff`, `Soundness.LoopPassSoundIff`), flags
reached through two aliases (`FlagOpt.ErasureSoundIff`), recursive structures
(`TypeRoundTrip.RoundTripIff`), elements that come back wider than they were stored
(`TypeLayout.LayoutKeptIff`), functions beyond the largest block target of a narrowed switch
(`IndirectJump.RelocatedTargetIff`), requests longer than the rest of a range
(`Program.FindBytesAgreesIff`), ranges mapped after the one in front of them
(`Program.Impl.FindNextByte`), signed readings of 32-bit words, shifts of them and unmasked sign
extensions (`XrefFolder.SignedMeansIff`, `XrefFolder.ShiftMeansIff`, `XrefFolder.SExtMeansIff`), errors dropped by comparisons
(`XrefFolder.ReportedIff`), fillers that do not end (`StackFrame.FillEndsIff`), offsets added to a
global variable or too large for 32 bits (`Pointers.IndexedIff`, `Pointers.SubStepIff`), padded
segments (`Segments.XrefMovesIff`), and the ninth double and most long doubles of a call
(`PrintfArgs.ArgumentsIff`).

What the model takes from outside: the semantics of instructions and callees (`Machine.Env`), natural
loops in simplified form with their preheaders and exits, the decoder and the delay-slot rules of the
architecture (`ControlFlow.Binary`), data layouts (offsets and sizes of structure elements), and
LLVM's answers about types. The outcome of conditional branches is an oracle that every theorem
quantifies over.

## Model

| member | source | states |
|---|---|---|
| Localize.FlushSyncs | Passes/TLS.cpp:405-421 | writing all slots back makes the register structure equal to the reference one |
| Localize.ReloadFills | Passes/TLS.cpp:422-437 | reloading makes every slot hold its reference register, whatever a call left behind |
| Localize.LoadStep | Passes/TLS.cpp:350-379 | a redirected load reads the value the register has in the original run |
| Localize.StoreStep | Passes/TLS.cpp:350-379 | a redirected store keeps slots, registers of other names and memory in step with the original run |
| Localize.CallStep | Passes/TLS.cpp:405-438 | a call wrapped in flush and reload sees the reference registers, is traced identically, and what it writes reaches the slots |
| Localize.BodySimulates | Passes/TLS.cpp:273-442 | a localised instruction sequence simulates the original one, for every state the relation admits |
| Regions.BlockBodyPreserved | Passes/TLS.cpp:576-752 | a localised block leaves registers, memory, call trace, virtual registers and other slots exactly as the block does |
| Regions.BlockPassEquivalent | Passes/TLS.cpp:576-767 | localising one block leaves every run of the whole function unchanged |
| Regions.LoopStep | Passes/TLS.cpp:298-438 | every transition between blocks keeps the loop invariant: slots current inside and on exit edges, nothing different elsewhere |
| Regions.LoopPassInvariant | Passes/TLS.cpp:273-442 | the loop invariant holds after any number of blocks of any run |
| Regions.LoopPassEquivalent | Passes/TLS.cpp:273-454 | localising one loop in simplified form leaves every run of the whole function unchanged |
| Regions.LoopPassRegisters | Passes/TLS.cpp:382-404 | wherever a run is outside the loop, the register structure itself is the original one |
| Soundness.CoherentIsSound | Passes/TLS.cpp:653-714 | with one offset per register name, every block the pass chooses to rewrite keeps its meaning, in any table order |
| Soundness.IncoherentIsUnsound | Passes/TLS.cpp:653-676 | two aliases of one register at different offsets give a block that the pass rewrites wrongly |
| Soundness.BlockPassSoundIff | Passes/TLS.cpp:576-752 | the block pass is sound over a table of aliases if and only if aliases of one register share their offset |
| Soundness.CoherentLoopIsSound | Passes/TLS.cpp:273-454 | with one offset per register name, every loop in simplified form is localised without changing any run of its function, in any table order |
| Soundness.IncoherentLoopUnsound | Passes/TLS.cpp:302-380 | two aliases of one register at different offsets give a function with a loop that the pass changes |
| Soundness.LoopPassSoundIff | Passes/TLS.cpp:273-454 | the loop pass is sound over a table of aliases if and only if aliases of one register share their offset |
| TlsPass.TlsImpl.GetInfo | Passes/TLS.cpp:206-238 | collects exactly the localised aliases of a region and counts their uses |
| TlsPass.TlsImpl.SlotsForLoop | Passes/TLS.cpp:302-380 | one slot for every register name, filled in the preheader, all uses inside the loop redirected |
| TlsPass.TlsImpl.RestoreAtExits | Passes/TLS.cpp:382-404 | write-backs in front of every exit block, once for every exit edge, and nowhere else |
| TlsPass.TlsImpl.WrapCallsIn | Passes/TLS.cpp:405-438 | flush and reload around exactly the calls that can see the registers |
| TlsPass.TlsImpl.RunOnLoop | Passes/TLS.cpp:273-442 | the in-place steps compose to one loop rewrite with a table for exactly the loop's registers, or change nothing |
| TlsPass.TlsImpl.RunOnBlock | Passes/TLS.cpp:576-752 | the block is rewritten exactly when its registers are used often enough, with a table for exactly those registers |
| TlsPass.TlsImpl.Run | Passes/TLS.cpp:773-792 | the loop pass followed by the block pass leaves every run of the function unchanged |
| TlsPass.RedirectThenWrap | Passes/TLS.cpp:302-438 | redirecting alias by alias and wrapping calls afterwards is the one-pass rewrite |
| TlsPass.StagesMakeLoop | Passes/TLS.cpp:302-438 | the stages of the loop rewriting, in the order they are performed, make the loop rewrite |
| TlsPass.LoopsPreserve | Passes/TLS.cpp:444-454 | after any number of loops, equivalence, shape and the side conditions of the next rewrite hold |
| TlsPass.BlocksPreserve | Passes/TLS.cpp:755-767 | the same after any number of blocks |
| RegisterLayout.LocalisedIff | Passes/TLS.cpp:25-32 | the pass takes exactly the aliases named after six flags and seventeen wide registers |
| RegisterLayout.KeyIff | Passes/TLS.cpp:334-337 | two of them share a slot exactly when they are named after one register |
| RegisterLayout.WellFormedIff | Passes/TLS.cpp:342-348 | what the proofs assume of a layout is that flags have one byte and wide registers eight, inside the structure, and different registers apart from each other and from all else |
| RegisterLayout.InstOverIff | Passes/TLS.cpp:342-348 | and of the code, that no access is wider than its register |
| RegisterLayout.FlushWrites | Passes/TLS.cpp:389-402 | a write-back changes one byte for a flag, eight for any other register, to those of the slot, and no other |
| RegisterLayout.ReloadReads | Passes/TLS.cpp:353-356 | a fill takes as many bytes into the slot and leaves the structure alone |
| RegisterLayout.GuardedIff | Passes/TLS.cpp:226-235 | a call is guarded exactly when it is no direct call of an intrinsic: the pass's list of names makes no difference |
| RegisterLayout.HandledIff | Passes/TLS.cpp:576-600 | a block is rewritten exactly when it uses registers, with more than twice as many uses as registers |
| RegisterLayout.ErasedIff | Passes/FlagRegisterOPT.cpp:49-91 | the flag pass erases exactly the stores through aliases of six flags that no function loads through, and changes nothing else |
| FlagOpt.FlagPass.HasLoad | Passes/FlagRegisterOPT.cpp:63-77 | finds a load through the alias if and only if some function has one |
| FlagOpt.FlagPass.RunOnModule | Passes/FlagRegisterOPT.cpp:49-94 | erases exactly the stores through flag aliases that are never loaded, though loads are looked for while stores disappear |
| FlagOpt.ErasedBody | Passes/FlagRegisterOPT.cpp:79-89 | executing a block without the erased stores agrees on everything but the erased bytes |
| FlagOpt.ErasedRun | Passes/FlagRegisterOPT.cpp:49-94 | every run of every length keeps control flow, virtual registers, memory, trace and all other registers |
| FlagOpt.FlagPassPreserves | Passes/FlagRegisterOPT.cpp:49-94 | the same for the aliases the pass itself selects in a module |
| FlagOpt.ErasureSoundIff | Passes/FlagRegisterOPT.cpp:61-89 | erasing is sound if and only if no loaded alias shares a byte with an erased one |
| TypePrinter.Printer.TranslateTypeInternal | anvill/src/TypePrinter.cpp:40-235 | appends exactly the printed form and leaves exactly its ids, structures in progress included |
| TypePrinter.Printer.TranslateStruct | anvill/src/TypePrinter.cpp:132-187 | a structure met before becomes a back reference, a new one gets the next id before its elements are printed |
| TypePrinter.Printer.TranslateBody | anvill/src/TypePrinter.cpp:149-183 | elements with the padding in front of each and at the end |
| TypePrinter.Printer.TranslateFunc | anvill/src/TypePrinter.cpp:102-130 | parameters, the variadic or void mark, and the result, between parentheses |
| TypeParser.Parser.ReadNumber | anvill/src/TypeParser.cpp:33-55 | consumes exactly the digits and gives their decimal value, held at the type's maximum |
| TypeParser.Parser.ReadElems | anvill/src/TypeParser.cpp:71-85 | collects the types up to the closing character, or fails as the grammar says |
| TypeParser.Parser.ReadCounted | anvill/src/TypeParser.cpp:117-214 | arrays and vectors, with the null type of an exhausted specification dereferenced |
| TypeParser.Parser.ReadPointer | anvill/src/TypeParser.cpp:217-245 | pointers: to void becomes to bytes, to an unsized type is refused |
| TypeParser.Parser.ReadFunc | anvill/src/TypeParser.cpp:248-330 | function types with their variadic and void marks |
| TypeParser.Parser.ReadDefinition | anvill/src/TypeParser.cpp:356-389 | a definition takes the next id, is open while its body is read, and gets the body afterwards |
| TypeParser.Parser.ReadReference | anvill/src/TypeParser.cpp:392-410 | a back reference resolves to the entry of its id |
| TypeParser.Parser.ReadType | anvill/src/TypeParser.cpp:60-464 | the parser on a shared index and id table does what the grammar function says |
| TypeParser.ParseWhole | anvill/src/TypeParser.cpp:468-492 | nothing may be left over and the type must have a size |
| TypeParser.TypeTail | anvill/src/TypeParser.cpp:60-464 | what a successful call leaves over is the end of the text it was given |
| TypeParser.SpecCrash | anvill/src/TypeParser.cpp:117-214 | the null type is used only if the specification is empty or ends in a bracket that opens an array or vector |
| TypeParser.SpecCrashes | anvill/src/TypeParser.cpp:482-483 | it is if the specification is empty, and if it is any run of opened pointers, arrays and vectors whose last is no pointer |
| TypeAccepted.TypeAccepted | anvill/src/TypeParser.cpp:60-464 | from any text, a successful call gives a type whose integers, counts, parameters, elements and pointers are as the parser sees to it, keeps the entries there were and leaves all new ones complete |
| TypeAccepted.SpecAccepted | anvill/src/TypeParser.cpp:468-492 | an accepted specification has a size, and every structure in it is complete, not empty and made of such types |
| TypeRoundTrip.DecimalValue | anvill/src/TypePrinter.cpp:192-201 | a printed number is made of digits and has the value printed |
| TypeRoundTrip.NumberRead | anvill/src/TypeParser.cpp:36-55 | a printed number is read back and nothing behind it is consumed |
| TypeRoundTrip.OpenedSync | anvill/src/TypeParser.cpp:382-388 | giving a structure an id keeps table and map in lockstep |
| TypeRoundTrip.CompletedSync | anvill/src/TypeParser.cpp:107-114 | closing a structure keeps table and map in lockstep, with the structure's normal form as the entry |
| TypeRoundTrip.ReadFields | anvill/src/TypePrinter.cpp:149-184 | the printed elements of a structure are read back with their padding, or refused, as the whole structure decides |
| TypeRoundTrip.ReadType | anvill/src/TypeParser.cpp:60-464 | from any synchronised state, parsing a printed type gives the normal form and a synchronised state, or fails exactly when the type is not good |
| TypeRoundTrip.PrintedTypeParses | anvill/src/TypeParser.cpp:60-464 | inside any suffix exactly the printed characters are consumed, and every id resolves to the structure printed with it |
| TypeRoundTrip.RoundTripIff | anvill/src/TypeParser.cpp:468-492 | a whole printed specification comes back, as its normal form, if and only if the type is sized and good |
| TypeRoundTrip.SelfReferenceLost | anvill/src/TypeParser.cpp:235-241 | a structure holding a pointer to itself never comes back |
| TypeRoundTrip.DocumentedListRefused | anvill/src/TypeParser.cpp:338-345 | the documented spelling of a linked list is refused |
| TypeLayout.BodyIsPieces | anvill/src/TypePrinter.cpp:149-184 | what is printed between the braces is the padding and elements of the layout, in order, with nothing between them |
| TypeLayout.PaddingConservesIff | anvill/src/TypePrinter.cpp:149-183 | padding plus element sizes is the allocation size if and only if elements do not overlap or stick out |
| TypeLayout.PrintedAtOffset | anvill/src/TypePrinter.cpp:152-171 | each element is printed right after bytes totalling its offset |
| TypeLayout.LayoutKeptIff | anvill/src/TypeParser.cpp:108-113 | the elements and the end of a structure read back are where they were if and only if every element comes back as wide as it was stored and its offset is a multiple of its new alignment |
| TypeLayout.EndsBehind | anvill/src/TypeParser.cpp:108-113 | what comes back wider or later pushes everything behind it by at least as much, padding included |
| TypeLetters.IntegerRead | anvill/src/TypeParser.cpp:412-432 | the letters of unsigned integers read as those of signed ones, and that of a truth value as a byte |
| TypeLetters.IntegersPrinted | anvill/src/TypePrinter.cpp:60-97 | an integer is printed with the signed letter of the smallest width that holds it, or as bytes |
| TypeLetters.PaddingPrinted | anvill/src/TypePrinter.cpp:152-183 | padding is printed as unsigned bytes |
| TypeLetters.PlainPrinted | anvill/src/TypePrinter.cpp:40-235 | nothing printed, at any depth, holds the letter of a truth value or of another unsigned integer |
| TypeLetters.PointersPrinted | anvill/src/TypePrinter.cpp:208-220 | a pointer is printed in front of what it points to, or as one to void exactly if that comes down to void, a function or a structure without a body |
| LiftedGraph.StepSimulated | anvill/src/MCToIRLifter.cpp:443-572 | one machine instruction is one or two steps through its blocks, with the same events and successor |
| LiftedGraph.MachineRunIsWalk | anvill/src/MCToIRLifter.cpp:600-683 | every machine run of every length is a walk through the lifted graph |
| LiftedGraph.WalkIsMachineRun | anvill/src/MCToIRLifter.cpp:600-683 | every walk through the lifted graph is a machine run, up to one block |
| Lifter.MCToIRLifter.GetOrCreateBlock | anvill/src/MCToIRLifter.cpp:46-61 | an address has one block; a new one is empty and queued, and nothing else changes |
| Lifter.MCToIRLifter.VisitDelayedInstruction | anvill/src/MCToIRLifter.cpp:365-373 | appends the delayed instruction exactly on the paths where it is live |
| Lifter.MCToIRLifter.LoadFunctionReturnAddress | anvill/src/MCToIRLifter.cpp:172-236 | the return address, moved by four exactly when an `unimp` word follows a SPARC call |
| Lifter.UnimpFields | anvill/src/MCToIRLifter.cpp:201-225 | the two zero fields of the encoding in terms of the bytes of the word |
| Lifter.MCToIRLifter.VisitAfterFunctionCall | anvill/src/MCToIRLifter.cpp:314-323 | the next program counter is updated and control continues at the block of the return address |
| Lifter.MCToIRLifter.EmitCall | anvill/src/MCToIRLifter.cpp:238-293 | the delayed instruction, the call to a declared or unknown function, and the way back |
| Lifter.MCToIRLifter.VisitNormal | anvill/src/MCToIRLifter.cpp:108-116 | the block implements the instruction |
| Lifter.MCToIRLifter.VisitDirectJump | anvill/src/MCToIRLifter.cpp:118-123 | the block implements the instruction |
| Lifter.MCToIRLifter.VisitLeaving | anvill/src/MCToIRLifter.cpp:125-153 | the block of an indirect jump, return or hyper call implements the instruction |
| Lifter.MCToIRLifter.VisitCall | anvill/src/MCToIRLifter.cpp:238-293 | the block of a call implements the instruction |
| Lifter.MCToIRLifter.VisitConditional | anvill/src/MCToIRLifter.cpp:325-363 | block and arms of every conditional category implement the instruction on both paths |
| Lifter.MCToIRLifter.VisitInstruction | anvill/src/MCToIRLifter.cpp:443-572 | for every category the block implements the instruction, finished blocks stay, and only new addresses are queued |
| Lifter.WithAddressInv | anvill/src/MCToIRLifter.cpp:46-61 | adding an address keeps the invariant of the work list |
| Lifter.TakeInv | anvill/src/MCToIRLifter.cpp:639-649 | the block of an address taken off the work list is always empty, and the address is queued no more |
| Lifter.ProgressDecreases | anvill/src/MCToIRLifter.cpp:638-680 | each turn adds addresses or shortens the work list |
| Lifter.MCToIRLifter.LiftNext | anvill/src/MCToIRLifter.cpp:638-680 | one turn of the loop keeps the invariant and decodes an address not decoded before |
| Lifter.MCToIRLifter.LiftFunction | anvill/src/MCToIRLifter.cpp:600-683 | ends with a completely lifted graph whose addresses are exactly the reachable ones, each decoded once |
| Lifter.AllDone | anvill/src/MCToIRLifter.cpp:638-683 | with an empty work list every block implements its instruction and the map holds exactly what can be reached |
| LiftedCode.BlockShape | anvill/src/MCToIRLifter.cpp:325-363 | in a lifted function an address without an instruction to run is an error block, and exactly the six conditional categories have a block that holds the instruction alone and branches |
| LiftedCode.TakenPath | anvill/src/MCToIRLifter.cpp:238-293 | the path taken is the instruction, that of the delay slot if it is live there, and the call with its way back, in this order |
| LiftedCode.NotTakenPath | anvill/src/MCToIRLifter.cpp:325-363 | the other path is nothing but the instruction of the delay slot, if live there, and goes to the next instruction |
| LiftedCode.DelaySlotIff | anvill/src/MCToIRLifter.cpp:365-373 | the instruction of the delay slot is in the block of a path exactly when the architecture says it is live on that path |
| LiftedCode.TakenTarget | anvill/src/MCToIRLifter.cpp:108-153 | where the path taken goes on, for every category; a call comes back to the next instruction, or four behind it |
| LiftedCode.UnimpIff | anvill/src/MCToIRLifter.cpp:187-236 | four behind exactly when the big-endian word of the bytes read, zero from a missing one on, has both fields zero |
| IndirectJump.TranslationContext.GetOrCreateBlock | mcsema/BC/Function.cpp:1222-1238 | one block per address, no two addresses share one, a new address is queued |
| IndirectJump.TranslationContext.CollectTargets | mcsema/BC/Function.cpp:755-800 | the block map holds exactly the known successors or the next instruction, and the suspected blocks |
| IndirectJump.TranslationContext.EmitDispatch | mcsema/BC/Function.cpp:822-935 | the emitted switches and comparisons are those for the block map |
| IndirectJump.TranslationContext.LiftIndirectJump | mcsema/BC/Function.cpp:749-944 | collecting and emitting together; the block map is never empty; blocks had are kept, only targets are added, and each that had none is queued once, marked as a block unless it is the next instruction taken for want of successors |
| IndirectJump.TargetIff | mcsema/BC/Function.cpp:755-800 | the targets in terms of the function's blocks: the successors or else the next instruction, and blocks that data refers to or nothing leads to |
| IndirectJump.LargestBlock | mcsema/BC/Function.cpp:875-898 | there is a second switch exactly if some target is no function, and it counts from the largest of those |
| IndirectJump.CasesDistinct | mcsema/BC/Function.cpp:858-904 | both switches have pairwise distinct constants |
| IndirectJump.DistantExact | mcsema/BC/Function.cpp:875-904 | the second switch selects the target an index stands for, narrowed or not |
| IndirectJump.OriginalTarget | mcsema/BC/Function.cpp:843-869 | an index that is an original target selects that target |
| IndirectJump.StandingTarget | mcsema/BC/Function.cpp:875-935 | any other index selects the target it stands for |
| IndirectJump.NoTarget | mcsema/BC/Function.cpp:905-943 | an index that stands for no target leaves the function |
| IndirectJump.RelocatedTargetIff | mcsema/BC/Function.cpp:843-935 | the run-time address of a target reaches it if and only if it is no other original target and, narrowed, the target is no function beyond the largest block or its address is small |
| IndirectJump.TruncatedTargetIff | mcsema/BC/Function.cpp:884-904 | a run-time address cut down to 32 bits reaches its target if and only if it is no other original target |
| IndirectJump.RebasedTarget | mcsema/BC/Function.cpp:825-838 | behind an offset table the run-time address of a target always reaches it |
| ByteMap.FindUnique | anvill/src/Program.cpp:820-842 | no address belongs to two mappings |
| ByteMap.SmallestEnd | anvill/src/Program.cpp:684-706 | the range with the smallest end above an address is the only one that can hold it |
| ByteMap.AddFlags | anvill/src/Program.cpp:863-874 | a new range, with fresh flags, keeps those of all others |
| ByteMap.LinksStep | anvill/src/Program.cpp:898-905 | a new mapping adds a link exactly when another ends where it begins |
| Program.Impl.MapRange | anvill/src/Program.cpp:797-908 | accepted exactly if not empty, representable, apart from all ranges and executable where functions are; state extended by the mapping or unchanged; invariant kept |
| Program.VerdictMeans | anvill/src/Program.cpp:797-858 | each of the five answers to a mapping, in terms of addresses and declared functions |
| Program.Impl.Overlaps | anvill/src/Program.cpp:822-842 | the ascending scan, stopping early, finds an overlap if and only if there is one |
| Program.Impl.Store | anvill/src/Program.cpp:863-906 | insertion, function and variable heads and the link of the previous byte restore the invariant |
| Program.Impl.DeclareFunction | anvill/src/Program.cpp:362-543 | refused in data, in use or malformed; otherwise listed, with the flag of its byte set; invariant kept |
| Program.Impl.DeclareVariable | anvill/src/Program.cpp:556-602 | the same for variables |
| Program.Impl.FindByte | anvill/src/Program.cpp:678-711 | finds a byte if and only if some mapping holds the address, and the right one |
| Program.ByteValue | anvill/src/Program.cpp:678-711 | the byte found has the value its mapping put there |
| Program.ByteFlags | anvill/src/Program.cpp:797-908 | a mapped byte is a function or variable head if and only if one is declared at its address, and its other flags say what follows it |
| Program.Impl.FindBytesContaining | anvill/src/Program.cpp:713-747 | the whole mapping around an address |
| Program.Impl.FindBytes | anvill/src/Program.cpp:753-794 | the bytes from an address on, the size cut to that of the whole range |
| Program.FindBytesAgreesIff | anvill/src/Program.cpp:783-789 | every byte of that sequence is the one found at its address if and only if the request fits or starts with the range |
| Program.Impl.FindNextByte | anvill/src/Program.cpp:1095-1105 | any hit is the byte found at the next address; a hit if and only if that byte's mapping was not made before this one's |
| Program.Impl.CountRun | anvill/src/Program.cpp:1095-1105 | going from byte to byte covers exactly the maximal run of mapped bytes when ranges were mapped in ascending order |
| Program.Impl.FindInVariable | anvill/src/Program.cpp:613-675 | the closest variable at or below an address, exactly if the address is its own or below its end and the end can be represented |
| Program.FollowsMeans | anvill/src/Program.cpp:898-905 | a next byte is one in the same mapping, or the start of a later one |
| XrefFolder.BitsAt | anvill/src/Analyze.cpp:315-355 | each bit of a bitwise result is the operation on the operands' bits |
| XrefFolder.AndOnes | anvill/src/Analyze.cpp:284-292 | masking with the low bits set is the remainder |
| XrefFolder.ApplyMeans | anvill/src/Analyze.cpp:284-394 | each operation in 64 bits and masked is the operation on words of the operands' width, and fits it |
| XrefFolder.FoldIsMeaning | anvill/src/Analyze.cpp:80-526 | every well-typed expression with a value folds to that value without error, where the signed operations met are given words for which the folder's reading does no harm |
| XrefFolder.UnsignedExact | anvill/src/Analyze.cpp:416-433 | expressions without a signed reading at 32 bits and without sign extensions are always given such words |
| XrefFolder.StoppedIsZero | anvill/src/Analyze.cpp:99-102 | what is given up on account of an error is zero |
| XrefFolder.FoldOperates | anvill/src/Analyze.cpp:284-394 | what each of the nine operations folds to, in arithmetic on words: sums and products modulo the width, bits by bits, shifts as multiplication and division |
| XrefFolder.FoldCompares | anvill/src/Analyze.cpp:445-477 | what each of the ten comparisons folds to |
| XrefFolder.SignedIs | anvill/src/Analyze.cpp:416-433 | the signed reading they refer to is the number of the word's class in the signed range |
| XrefFolder.SignedMeansIff | anvill/src/Analyze.cpp:416-433 | the signed reading is right at every width but 32, and there exactly for words a signed byte can hold |
| XrefFolder.ShiftMeansIff | anvill/src/Analyze.cpp:383-394 | an arithmetic shift of a 32-bit word is right exactly if all bits behind the low byte that are not shifted out are that byte's sign |
| XrefFolder.SignedCompareWrong | anvill/src/Analyze.cpp:416-466 | a signed comparison of 32-bit words that comes out wrong |
| XrefFolder.SExtMeansIff | anvill/src/Analyze.cpp:504-513 | sign extension is right exactly for words that are not negative, and to 64 bits exactly for zero |
| XrefFolder.FailedIsLast | anvill/src/Analyze.cpp:63-491 | an error is recorded in the end exactly if the last thing to touch the one shared error was a leaf without an address and not a comparison |
| XrefFolder.MeaninglessIff | anvill/src/Analyze.cpp:99-102 | an expression has no value if and only if folding it meets a leaf without an address, selections and early exits included |
| XrefFolder.ReportedIff | anvill/src/Analyze.cpp:445-491 | exactly the expressions without a value are reported as errors if and only if no comparison has the last word after such a leaf was met |
| XrefFolder.QuietReported | anvill/src/Analyze.cpp:445-491 | which holds of every expression where no comparison is over such a leaf or comes after one in the same operation |
| XrefFolder.ComparisonDropsErrors | anvill/src/Analyze.cpp:445-450 | two expressions without a value and without an error: comparing such a leaf, and comparing numbers after it |
| StackFrame.Span | anvill/src/Analyze.cpp:755-801 | the frame spans the red zone and every access |
| StackFrame.BiasedIff | anvill/src/Analyze.cpp:783-791 | an offset keeps its place exactly when it reaches no further down than the bias |
| StackFrame.WithinIff | anvill/src/Analyze.cpp:799-800 | an access lies within the frame if and only if it does not wrap around |
| StackFrame.FillerTotal | anvill/src/Analyze.cpp:850-859 | fillers total exactly the gap |
| StackFrame.FillerIs | anvill/src/Analyze.cpp:850-859 | a filler is words, and then fewer bytes than make another |
| StackFrame.FillEndsIff | anvill/src/Analyze.cpp:850-854 | the filler's first loop, whose sum wraps, comes to an end if and only if the gap stops before the last word of its class in the address space |
| StackFrame.FillUpTo | anvill/src/Analyze.cpp:850-859 | whenever it ends: pointer-sized words while they fit, then bytes |
| StackFrame.BuildFrame | anvill/src/Analyze.cpp:805-880 | begins at the lowest access or the red zone and ends at the highest end or the bias; every run between kept accesses is words and then bytes; elements total exactly the frame and kept accesses have their offsets, each up to a whole address space for every kept access that wraps; a dropped access starts inside a kept one; when none wraps, of those at one address the widest is kept; it ends if and only if the filler in front of every kept access and of the frame's end does, and so if no access has an end in the last word |
| Pointers.Signed32Is | anvill/src/Optimize.cpp:387-400 | an index is the number of the constant's class in the range of 32 bits |
| Pointers.FitsIff | anvill/src/Optimize.cpp:387-400 | the constants that fit are those within 2 to the 31 of either end of the address space |
| Pointers.StripAddress | anvill/src/Optimize.cpp:401-402 | stripping a pointer preserves its address |
| Pointers.ScaledIsBytes | anvill/src/Optimize.cpp:431-454 | the scaled form of an index, negative ones included, is the same address as the form in bytes |
| Pointers.IndexedForm | anvill/src/Optimize.cpp:425-469 | a constant index is used in units of the element exactly when it is a whole number of them and one size is a multiple of the other, and in bytes otherwise |
| Pointers.IndexedAddress | anvill/src/Optimize.cpp:387-469 | the pointer made is base plus sign-extended 32-bit index, or the base alone where the index is forgotten |
| Pointers.IndexedIff | anvill/src/Optimize.cpp:387-469 | it is the sum of its parts if and only if the index fits in 32 bits, or, behind a global, is zero |
| Pointers.SubStepIff | anvill/src/Optimize.cpp:639-658 | a constant subtracted from a pointer is subtracted if and only if its negation fits in 32 bits, or, behind a global, it is zero |
| Pointers.GetNoGlobal | anvill/src/Optimize.cpp:512-702 | the pointer found in a tree without globals has none |
| Pointers.PointerDenotes | anvill/src/Optimize.cpp:512-702 | the pointer found for a tree of additions, subtractions and casts denotes the tree's address, for all trees in which offsets fit in 32 bits and constants other than zero are not on top of globals |
| Pointers.AdditionIndexed | anvill/src/Optimize.cpp:575-637 | an addition with one operand made from a pointer is indexed from that pointer by the other |
| Pointers.TracedIff | anvill/src/Optimize.cpp:512-702 | in a tree that turns no integer into a pointer, neither does the pointer found, exactly when the address comes from a pointer or a shared address that does |
| Segments.MergeSegments | mcsema/BC/Segment.cpp:735-827 | fails if and only if segments overlap; otherwise each segment sits as far from the start as its address from the first page, every byte that is no segment's data is zero, and the image ends with a segment |
| Segments.OverlapIff | mcsema/BC/Segment.cpp:752-790 | the test on neighbours of the sorted list accepts exactly the lists in which no two segments have an address in common |
| Segments.EmptyTie | mcsema/BC/Segment.cpp:752-790 | a segment without bytes at the address of another is accepted or not as the sort happens to put it first |
| Segments.BytesMoveTogether | mcsema/BC/Segment.cpp:764-826 | every byte of a merged segment is found at its relocated place |
| Segments.XrefMovesIff | mcsema/BC/Util.cpp:71-99 | a data cross-reference is relocated with everything else if and only if its segment is not padded |
| Segments.DistanceKeptIff | mcsema/BC/Util.cpp:71-99 | two references keep their distance if and only if their segments are padded alike |
| Segments.XrefFindsByte | mcsema/BC/Util.cpp:71-109 | a reference to a byte of a segment's data finds that byte |
| PrintfArgs.AssignArguments | Passes/printfPass.cpp:1107-1275 | the argument loop with its counters and stack offset chooses the locations of the model |
| PrintfArgs.BehindIff | Passes/printfPass.cpp:1147-1274 | once the stack slot is behind the convention's, the locations agree if and only if only doubles follow, all with registers and aliases |
| PrintfArgs.ChosenIff | Passes/printfPass.cpp:1147-1274 | from any counters on, the chosen locations are those of the convention if and only if every double has a register and an alias, and any long double comes when the general registers are used up, at an aligned slot and with only doubles behind it |
| PrintfArgs.ArgumentsIff | Passes/printfPass.cpp:1107-1275 | the same for a whole call |
| PrintfArgs.LongDoubleMisplaced | Passes/printfPass.cpp:181-215 | so a call with a long double among its first six arguments that are no doubles is read wrongly |
| PrintfArgs.NoneLostIff | Passes/printfPass.cpp:1147-1274 | every argument is given a place if and only if every double has a register and an alias |
| PrintfArgs.ChosenDistinct | Passes/printfPass.cpp:1147-1274 | no two arguments are read from one place |
| PrintfArgs.ConventionApart | Passes/printfPass.cpp:1147-1274 | the convention it is measured against gives every argument registers and bytes of its own |

## Left out

- TlsPass.TlsImpl.Run: phi nodes, invokes, aliases whose address escapes into other instructions, and the test of the function's name are not modelled; loops and their exits are given, in simplified form, as LLVM's analyses would give them.
- TlsPass.TlsImpl.SlotsForBlock: for a second alias of a register the source compares users with a variable that was never assigned; the model compares with the fill that exists.
- The XMM branches of the localisation pass: no XMM name is in its table, so they are never taken.
- TlsPass.TlsImpl.GetInfo: operands of phi nodes, and the set of calls it collects beside the aliases, are not modelled.
- TlsPass.TlsImpl.RunOnBlock: only loads and stores can use an alias in the model; the source counts alias operands of any instruction.
- FlagOpt.FlagPass.RunOnModule: the source erases a store while walking the list of users it is on; the model erases every store.
- TypeRoundTrip.RoundTripIff: whether a structure is packed is not part of the normal form; sizedness is read as LLVM's, a structure being sized once it has a body.
- TypePrinter.Printer.TranslateStruct: the id of a new structure is the number of ids before it, the order in which C++17 evaluates the assignment.
- TypeParser.Parser.ReadNumber: conversion of digits by the C++ library is taken to hold a number that is too large at the maximum.
- TypeParser.SpecCrash: which specifications ending in such a bracket get that far, rather than fail earlier, is for the grammar function to say; `TypeParser.SpecCrashes` gives a family that does.
- Lifter.MCToIRLifter.LiftFunction: decoding is a function of the address; the tail-call branch is left out because functions are looked up by exact address, and so are type hints on registers and the check for functions lifted before.
- Lifter.MCToIRLifter.VisitInstruction: visitors with the same code are one method; those for invalid and erroneous instructions are never reached from the work list.
- IndirectJump.TranslationContext.LiftIndirectJump: exception landing pads and the return sequence after the last comparison; the other visitors of that lifter and its work list follow the scheme proved for the first one.
- Program.Impl.DeclareFunction: the checks on register and value types are one flag; sorting flags and names are not modelled.
- Program.Impl.DeclareVariable: the checks on the variable's type are one flag.
- XrefFolder.FoldIsMeaning: the flags that guess at pointers and shifts, `getelementptr` and bit counts are left out; one kind of leaf stands for everything the folder cannot resolve; a shift by 64 or more, in the masks of sign extensions as well, takes the low six bits of the amount, as the host does. The condition on comparisons asks that both words be read right, and does not follow two wrong readings that happen to be in the right order.
- XrefFolder.ReportedIff: shifts by the width or more, which have no value and are not reported, are outside it.
- StackFrame.BuildFrame: where a filler does not end, the result says so instead. Types of equal size at one address are not told apart.
- TypeLayout.LayoutKeptIff: sizes and alignments of what is read back are those of a given data layout, in which nothing comes back smaller than it was stored.
- Pointers.PointerDenotes: address spaces, phi nodes, constant expressions and the reuse of earlier conversions are not modelled, and constants hit no declared entity; negating the least 32-bit number gives that number again.
- Segments.OverlapIff: asks that a segment without bytes shares its address with no other, because `Segments.EmptyTie` shows that the sort decides those.
- Segments.MergeSegments: addresses are unbounded, so a segment that wraps around is not modelled; lifting the bytes and cross-references of a segment into its initializer is not modelled.
- PrintfArgs.ArgumentsIff: parsing the format by regular expressions is not modelled.
- LLVM's own passes and analyses, instruction semantics, file formats, logging and inline assembly.
- The passes that copy fixed fields or rewrite one line: stat, fstat, time stamp counter, FS register, argument lists, renaming, linkage and calling conventions.
