# Verified model of the Glyim compiler's core

Glyim compiles a Rust-like language. This project models the parts of it that
are worklist algorithms and hand-written machines, and proves what they compute:

- **Borrow checker** (`glyim-borrowck`): backward liveness, forward two-phase
  reservation and forward moved/dead paths, each a worklist over bit sets on an
  arbitrary control-flow graph, proved equal to a notion stated with
  control-flow paths; the trie of move paths that grows during lookup; the
  structural test for overlapping places, measured against an access-path
  semantics of places.
- **Bytecode** (`glyim-codegen`, `glyim-bytecode-vm`): the virtual machine, once
  as a step function and once as the object its driver mutates, the emitter on
  scalar bodies with a simulation proof from the runs of the MIR interpreter
  (`glyim-mir-interp`) down to the emitted bytes, and the peephole pass with a
  proof that it preserves meaning.
- **Lexer** (`glyim-frontend`): total, lossless, and stable under lexing again.
- **Lowering and layout** (`glyim-lower`, `glyim-layout`,
  `glyim-codegen-llvm/src/abi.rs`): monomorphization as reachability, codegen
  units as a partition, scope-exit drop chains with their drop flags, and the
  arithmetic of layouts in both layout computers.

Code that updates state step by step is imperative here too: methods with loops,
and classes (`MovePathArena`, `Machine`, `Scanner`, `Collector`, `MirBuilder`)
whose methods are tied to functions of the old state. The laws are lemmas about
those functions.

## Files

| files | subject |
|---|---|
| `Mir.dfy`, `Reads.dfy`, `Bits.dfy` | MIR bodies and their visitors; what the visitors collect, by position; bit sets and worklists |
| `Words.dfy`, `WordLaws.dfy` | 64-bit words and little-endian bytes; what their operations compute |
| `Liveness.dfy`, `StmtLiveness.dfy`, `LivenessMeaning.dfy` | block liveness; the backward scan inside a block; liveness against runs of the MIR interpreter |
| `TwoPhase.dfy`, `TwoPhaseLimits.dfy` | reservations; exactly when the worklist computes them |
| `MovePaths.dfy`, `MoveDataflow.dfy`, `MoveEffects.dfy`, `MoveMeaning.dfy` | the move-path trie; the move tables; what statements do to them; tables and rows on places and statements |
| `PlaceConflict.dfy` | overlapping places |
| `Vm.dfy`, `VmLaws.dfy`, `Machine.dfy`, `Bytecode.dfy` | the machine as a step function; its instructions on their bytes; the machine as an object; decoded instructions |
| `Peephole.dfy`, `Emitter.dfy`, `Simulation.dfy` | the rewrite; the emitter; the machine on emitted code |
| `Interp.dfy`, `MirRun.dfy` | the MIR interpreter's operations and exactly when words follow them; its runs, and the machine following those |
| `Tokens.dfy`, `Lexer.dfy`, `LexerLaws.dfy`, `TokenLaws.dfy` | tables; scanner; losslessness and stability; what each kind of token looks like |
| `Mono.dfy`, `MonoLaws.dfy`, `Partition.dfy`, `DropChain.dfy` | collection; callees and references on the bodies as given; codegen units; drop elaboration |
| `Align.dfy`, `Layout.dfy`, `LayoutLaws.dfy`, `LayoutBackend.dfy`, `LayoutExact.dfy` | rounding; layouts; their laws; the LLVM backend's computer; scalars by their bits, aggregates as least layouts |

## Where the code and its documentation disagree

Each point is a lemma; the model follows the code.

- The two-phase worklist assigns bits instead of adding them. If a statement of
  the loan's block up to the loan reads the destination and control can come
  back, it loses the loan's own point or never stops
  (`HaltsExactlyIffUndisturbed`, `LoopNeverHalts`).
- `compute_stmt_liveness` documents the locals live before each statement, but
  starts from `live_out` without the terminator and kills at `StorageDead`; the
  rows are exact if and only if the terminator changes nothing and no local is
  in a row when it dies (`RowsExactIff`, `AssertedLocalMissed`).
- The backward scan kills at `StorageDead`, the block summary does not; exactly
  when they agree is `ScanAgreesIffHarmless`.
- A move after an initialisation in the same block is forgotten by the block
  tables (`ReplayMeetsTable`, `MoveAfterInitForgotten`).
- The move tables are sized by the paths built beforehand; a place through a
  variant or an element counted from the front adds a path that has no room in
  them (exactly which lookups do is `LookupGrowsIff`).
- `places_conflict` documents that index projections are assumed to alias; two
  different index locals are reported disjoint even if their values are equal,
  and so are elements reached through overlapping subslices (`VerdictWrongIff`, `EqualIndicesMissed`, `NestedSubsliceMissed`).
- The MIR interpreter and the machine differ on integer `Not`, on division by
  zero, on shifts by 64 or more, and, for unsigned numbers from 2^63 on, on their
  order, quotients, remainders and right shifts. `UnaryFollowsIff` and
  `BinaryFollowsIff` say exactly when they agree, for all numbers of 64-bit types
  (`IntegerNotDiffers`, `ZeroDivisionDiffers`, `UnsignedOrderDiffers`,
  `UnsignedHalfDiffers`, `UnsignedShiftDiffers`).
- `fold_int_binop` says the runtime traps on division by zero; the machine
  yields 0, and folding a remainder by zero panics (`RemainderPanics`; exactly
  when the pass panics is `PanicsIff`).
- Decoding and re-encoding corrupts `ASSERT` (`AssertReencoded`) and lets the
  pass delete bytes of a `LOAD_LOCAL_ADDR` operand (`AddressOperandDeleted`;
  exactly when the pass leaves a stream alone is `BytesKeptIff`).
- A bool switch with an arm for 1, as `if_switch` and drop elaboration build it,
  is emitted with its targets exchanged (`OneArmExact`, `GuardIsInverted`).
- Emitted code returns with an empty operand stack, so a `Return` of the entry
  function ends in `EmptyReturn` (`Simulates`).
- With a type context attached, a function that is only used as a value is never
  collected (`OnlyCallsWithContext`).
- Scope drops run in the order of declaration, not in reverse (`DropsExact`).
- `partition` says ties keep the first group; `max_by_key` keeps the last, so
  its equal-size branch is only reached with a single group (`OneGroup`).
- `discriminant_info` says its tag agrees with the backend's; the sizes agree if
  and only if the backend's is not 3, 5, 6 or 7 bytes (`TagsAgreeIff`). The
  backend does not align payloads (`PayloadAlignedIff`, `PayloadMisaligned`), its
  sizes and alignments agree under the conditions of `EnumsAgreeIff`,
  and the payload offset shared by all variants need not leave room for each of
  them (`SharedOffsetFitsIff`, `SharedOffsetOverruns`).

## Model

| member | source | states |
|---|---|---|
| `Mir.Predecessors` | crates/glyim-borrowck/src/liveness.rs:130-139 | the predecessor lists hold b exactly at the successors of b |
| `Reads.RvalueReadsIff` | crates/glyim-borrowck/src/visitor.rs:28-56 | an rvalue reads exactly the places its operands copy or move, at every position, and the one it borrows, measures or takes the discriminant of |
| `Reads.TerminatorReadsIff` | crates/glyim-borrowck/src/visitor.rs:58-78 | a terminator reads exactly a switch's discriminant, an assertion's condition, a call's callee and arguments; no destination and no dropped place |
| `Reads.SuccessorsIff` | crates/glyim-borrowck/src/visitor.rs:80-121 | the successors are exactly the blocks control can go to, every arm and cleanup block included |
| `Liveness.BlockSummary` | crates/glyim-borrowck/src/liveness.rs:65-106 | the forward pass over a block collects exactly the upward-exposed reads and the written locals |
| `Liveness.BlockTransfer` | crates/glyim-borrowck/src/liveness.rs:65-106 | at every point of a block a local is live along some path iff the block's transfer, applied to liveness on exit, says so |
| `Liveness.ComputeLiveness` | crates/glyim-borrowck/src/liveness.rs:124-190 | for every body whose read locals are declared the worklist terminates, and a local is in `live_out[b]` iff some path from the exit of b reads it before any write, reads being those of `Reads.RvalueReadsIff` and `Reads.TerminatorReadsIff` |
| `Liveness.SolutionExact` | crates/glyim-borrowck/src/liveness.rs:156-186 | any solution of the block equations that is sound for paths is exactly path liveness |
| `LivenessMeaning.RvalueAgrees` | crates/glyim-mir-interp/src/lib.rs:630-641 | stores that agree on the locals an rvalue reads give it the same value |
| `LivenessMeaning.LeavingAgrees` | crates/glyim-mir-interp/src/lib.rs:281-375 | stores that agree on the locals a terminator reads leave its block in the same way |
| `LivenessMeaning.LeavesToSuccessor` | crates/glyim-mir-interp/src/lib.rs:281-375 | the interpreter goes from a block to its successors only |
| `LivenessMeaning.LiveBeforeStmt` | crates/glyim-borrowck/src/liveness.rs:65-106 | a local is live before a statement iff the statement reads it, or does not assign to it and it is live behind it |
| `LivenessMeaning.LiveBeforeEnd` | crates/glyim-borrowck/src/liveness.rs:65-106 | the same for a terminator, of which only a call assigns, and the blocks it leads to |
| `LivenessMeaning.DeadLocalsDoNotMatter` | crates/glyim-borrowck/src/liveness.rs:124-190 | from stores that agree on the locals live at a block, the interpreter goes through the same blocks and ends or faults in the same way, for any number of blocks |
| `StmtLiveness.ComputeStmtLiveness` | crates/glyim-borrowck/src/liveness.rs:202-242 | row i is the backward scan over the statements from i on |
| `StmtLiveness.ScanIsSummary` | crates/glyim-borrowck/src/liveness.rs:202-242 | for every set, the backward scan equals uses and passed-through locals accumulated forward, storage deaths included |
| `StmtLiveness.ScanAgreesIffHarmless` | crates/glyim-borrowck/src/liveness.rs:65-106 | the scan equals the block summary on every set iff every local that dies in the block is written, and not exposed as a use, by the summary |
| `StmtLiveness.DeathBeforeReadDisagrees` | crates/glyim-borrowck/src/liveness.rs:228-233 | a block on which the two differ |
| `StmtLiveness.FoldIsSummary` | crates/glyim-borrowck/src/liveness.rs:65-106 | the forward fold over statements is the path-based summary of a block prefix |
| `StmtLiveness.ScanGivesLiveIn` | crates/glyim-borrowck/src/liveness.rs:65-106 | the terminator's own transfer followed by the scan is the block's live-in equation |
| `StmtLiveness.RowsExactIff` | crates/glyim-borrowck/src/liveness.rs:196-242 | in every block the rows are path liveness iff the terminator neither reads nor writes anything that matters and no local is in the row after its storage death |
| `StmtLiveness.AssertedLocalMissed` | crates/glyim-borrowck/src/liveness.rs:196-242 | a block whose row misses the local its assertion reads |
| `TwoPhase.Transfer` | crates/glyim-borrowck/src/twophase.rs:44-69 | the loop over a block marks exactly the points reached without a read of the destination |
| `TwoPhase.Compute` | crates/glyim-borrowck/src/twophase.rs:13-118 | on undisturbed loans it terminates, and a point is reserved iff a path runs to it from just after the loan on which no statement reads the destination |
| `TwoPhase.Seed` | crates/glyim-borrowck/src/twophase.rs:71-85 | the start state: the loan's block from just after the loan, its successors reserved and queued if its exit is |
| `TwoPhase.StepOnce` | crates/glyim-borrowck/src/twophase.rs:94-116 | one iteration of the worklist is one step of the state machine that the laws are about |
| `TwoPhase.PropagateAll` | crates/glyim-borrowck/src/twophase.rs:103-114 | entry flags of successors become the disjunction of their predecessors' exits, changed ones are queued once |
| `TwoPhaseLimits.HaltsExactlyIffUndisturbed` | crates/glyim-borrowck/src/twophase.rs:13-127 | the worklist halts with the path-based answer iff the loan's block is quiet up to the loan or cannot be re-entered reserved |
| `TwoPhaseLimits.DisturbedNotExact` | crates/glyim-borrowck/src/twophase.rs:94-118 | on a disturbed loan, no halting run gives the path-based answer |
| `TwoPhaseLimits.LoopNeverHalts` | crates/glyim-borrowck/src/twophase.rs:94-118 | a four-block body on which no number of iterations empties the worklist |
| `TwoPhaseLimits.ReservedBehindStmt` | crates/glyim-borrowck/src/twophase.rs:44-69 | a loan is reserved behind a statement iff it is the loan itself, or the loan is reserved before it and it reads the loan's destination at no position |
| `TwoPhaseLimits.ReservedAtEntry` | crates/glyim-borrowck/src/twophase.rs:94-116 | and at the start of a block iff it is at the end of one that leads there; terminators activate nothing |
| `PlaceConflict.PlacesConflict` | crates/glyim-borrowck/src/visitor.rs:137-284 | the early-return scan decides by the first pair of projections that tells; `PlaceConflict.ConflictIff` states what the verdict means |
| `PlaceConflict.OverlapSymmetric` | crates/glyim-borrowck/src/visitor.rs:137-284 | conflict does not depend on the order of the places |
| `PlaceConflict.OverlapShrinks` | crates/glyim-borrowck/src/visitor.rs:137-284 | extending a place can only lose a conflict |
| `PlaceConflict.NoConflictExact` | crates/glyim-borrowck/src/visitor.rs:137-284 | with subslices last, the places of a no-conflict verdict denote disjoint access paths in every memory that separates the two deciding projections, and up to there in no other memory |
| `PlaceConflict.ConflictIff` | crates/glyim-borrowck/src/visitor.rs:137-284 | for places of decidable pairs with subslices last, in a memory where they denote something and compared index locals differ in value, the verdict is conflict iff their access paths meet |
| `PlaceConflict.ConflictMeets` | crates/glyim-borrowck/src/visitor.rs:137-284 | so a conflict of such places is real in every memory where they denote something: places disjoint in one of them get no conflict |
| `PlaceConflict.GivesUp` | crates/glyim-borrowck/src/visitor.rs:137-284 | at the first pair not on the list of decidable kinds the test answers conflict, whatever follows |
| `PlaceConflict.DisjointIff` | crates/glyim-borrowck/src/visitor.rs:123-136 | two places are disjoint iff the element numbers and steps they resolve to differ, subslices anywhere |
| `PlaceConflict.VerdictWrongIff` | crates/glyim-borrowck/src/visitor.rs:137-284 | a verdict of no conflict on whole places is wrong iff the scan meets a pair it calls disjoint and the places resolve to steps that do not differ |
| `PlaceConflict.EqualIndicesMissed` | crates/glyim-borrowck/src/visitor.rs:167-177 | index locals with equal values are reported disjoint though they denote one element |
| `PlaceConflict.NestedSubsliceMissed` | crates/glyim-borrowck/src/visitor.rs:223-242 | elements of two overlapping subslices are reported disjoint though they are one element |
| `PlaceConflict.PrefixConflictIsReal` | crates/glyim-borrowck/src/visitor.rs:282-283 | a conflict found at the end of a place is real: it covers every access path of the longer one |
| `MovePaths.MovePathArena.Find` | crates/glyim-borrowck/src/move_analysis.rs:101-222 | the in-place lookup is the functional one, and keeps the arena a trie |
| `MovePaths.MovePathArena.constructor` | crates/glyim-borrowck/src/move_analysis.rs:75-81 | a new arena is an empty trie |
| `MovePaths.PlacesUnique` | crates/glyim-borrowck/src/move_analysis.rs:101-222 | in a valid arena no two nodes stand for the same place |
| `MovePaths.LookupGood` | crates/glyim-borrowck/src/move_analysis.rs:101-222 | a lookup keeps the trie valid, only appends, and returns the node of the longest tracked prefix, index steps dropped and constant indices normalised |
| `MovePaths.LookupIdempotent` | crates/glyim-borrowck/src/move_analysis.rs:101-222 | a second lookup of the same place returns the same index and changes nothing |
| `MovePaths.BuildMovePaths` | crates/glyim-borrowck/src/move_analysis.rs:236-269 | one root per local and one node per field of its type, and nothing else |
| `MovePaths.LookupGrowsIff` | crates/glyim-borrowck/src/move_analysis.rs:101-269 | in the arena built for a body, a lookup adds a path iff before it stops it meets a variant or an element counted from the front |
| `MoveMeaning.NodeOfPlace` | crates/glyim-borrowck/src/move_analysis.rs:101-234 | a lookup returns the node that follows the longest part of the place: it skips indexing by a local, keeps fields, variants and elements counted from the front, and ends at a dereference, a subslice, an element counted from the end or a field without a node |
| `MoveDataflow.SettledIsLeast` | crates/glyim-borrowck/src/move_analysis.rs:408-453 | a settled, sound table is below every solution of the block equations and is exactly what block paths carry |
| `MoveDataflow.Solve` | crates/glyim-borrowck/src/move_analysis.rs:382-462 | the worklist terminates with the least moved and dead tables, the entry block's incoming row empty |
| `MoveEffects.Collect` | crates/glyim-borrowck/src/move_analysis.rs:464-556 | collecting a block's effects one by one gives all it ever takes and all it ever initialises, whatever the order |
| `MoveEffects.ComputeMoveDataflow` | crates/glyim-borrowck/src/move_analysis.rs:329-462 | the tables of a body are least for the summaries of its statements and calls, which `MoveMeaning.StmtIs` states on places |
| `MoveEffects.ComputeStmtMoved` | crates/glyim-borrowck/src/move_analysis.rs:558-631 | the statement rows are the replay of the statements before them; `MoveMeaning.RowIs` states each step on places |
| `MoveEffects.ReplayIsSummary` | crates/glyim-borrowck/src/move_analysis.rs:593-631 | replay of any effects is a summary: what came in and was not initialised, and what was last taken |
| `MoveEffects.ReplayAgreesIff` | crates/glyim-borrowck/src/move_analysis.rs:464-631 | replay agrees with the block summary iff nothing initialised is taken afterwards |
| `MoveEffects.ReplayMeetsTable` | crates/glyim-borrowck/src/move_analysis.rs:329-631 | the last statement row, with the call's initialisation, contains the outgoing row, and equals it iff no move follows an initialisation |
| `MoveEffects.MoveAfterInitForgotten` | crates/glyim-borrowck/src/move_analysis.rs:329-631 | a two-statement block whose move the table forgets |
| `MoveMeaning.RvalueMovesIff` | crates/glyim-borrowck/src/move_analysis.rs:500-556 | the moved places of an rvalue are those of its Move operands, at every position |
| `MoveMeaning.StmtIs` | crates/glyim-borrowck/src/move_analysis.rs:464-498 | after a statement a node is gone iff the statement moves a non-Copy place out at or directly above it or ends its local's storage, or it was gone and is neither the node nor a direct child of what the statement assigns or declares; dead likewise by storage alone |
| `MoveMeaning.RowIs` | crates/glyim-borrowck/src/move_analysis.rs:593-631 | the same from each statement row to the next |
| `MoveMeaning.GoneAtEndIff` | crates/glyim-borrowck/src/move_analysis.rs:408-453 | a least table has a node gone at the end of a block iff a path of blocks leads there from one with a statement that takes it, past no block that renews it and not back through the entry |
| `MoveMeaning.MovedAndDead` | crates/glyim-borrowck/src/move_analysis.rs:329-462 | the two tables of a body are exactly that, for moves and for storage deaths |
| `Words.NegateTwice` | crates/glyim-bytecode-vm/src/lib.rs:639-645 | wrapping negation undoes itself, at the least word too |
| `Words.U32RoundTrip` | crates/glyim-bytecode-vm/src/lib.rs:694-702 | reading back four little-endian bytes |
| `Words.I64RoundTrip` | crates/glyim-bytecode-vm/src/lib.rs:704-712 | reading back the eight bytes of a signed word |
| `WordLaws.QuotientExact` | crates/glyim-bytecode-vm/src/lib.rs:620-621 | division truncates toward zero, and no other quotient and remainder do |
| `WordLaws.DivisionIs` | crates/glyim-bytecode-vm/src/lib.rs:620-621 | checked quotient and remainder give the dividend back; unchecked ones are 0 |
| `WordLaws.SubtractionIs` | crates/glyim-bytecode-vm/src/lib.rs:617-618 | wrapping subtraction and addition undo each other |
| `WordLaws.BitwiseBits` | crates/glyim-bytecode-vm/src/lib.rs:630-632 | each bit of a bitwise result is both, either or exactly one of the operands' bits |
| `WordLaws.ShiftsAre` | crates/glyim-bytecode-vm/src/lib.rs:633-634 | a right shift rounds down, a left shift is the product modulo 2^64, by an amount modulo 64 |
| `Vm.StepFrames` | crates/glyim-bytecode-vm/src/lib.rs:400-613 | a return pops one frame into the caller's destination, a call pushes one frame, and every other opcode keeps the depth and all frames below the top |
| `Vm.DepthBounded` | crates/glyim-bytecode-vm/src/lib.rs:361-391 | no run of any module ever has more than 1024 frames |
| `Vm.LowerFramesKept` | crates/glyim-bytecode-vm/src/lib.rs:400-613 | while the depth stays above d, the d lowest frames never change |
| `Vm.CallThenReturn` | crates/glyim-bytecode-vm/src/lib.rs:568-607 | between a call and its matching return the caller's frame changes only in the destination local and the pc |
| `VmLaws.CallStarts` | crates/glyim-bytecode-vm/src/lib.rs:588-607 | on the bytes of a call: the callee is the word under the arguments, its locals are the argc topmost values in push order and then zeros, its pc is 0, and it records dest and target; or which error it is |
| `VmLaws.CallReturns` | crates/glyim-bytecode-vm/src/lib.rs:568-607 | on the bytes of a call: after the matching return the value is in the caller's local dest, the caller goes on at block target, and nothing else of it changed |
| `VmLaws.SwitchTakesLast` | crates/glyim-bytecode-vm/src/lib.rs:501-520 | an encoded switch goes to the last arm for the word, or to its otherwise block |
| `VmLaws.JumpIfTakes` | crates/glyim-bytecode-vm/src/lib.rs:492-500 | a conditional jump takes the word and jumps unless it is 0; an unresolvable target panics either way |
| `VmLaws.AssertChecks` | crates/glyim-bytecode-vm/src/lib.rs:521-531 | an assertion goes on at its target iff the truth of the word is the one its flag byte expects |
| `VmLaws.AggregateInOrder` | crates/glyim-bytecode-vm/src/lib.rs:544-552 | the topmost values become a tuple in the order they were pushed |
| `VmLaws.RepeatCopies` | crates/glyim-bytecode-vm/src/lib.rs:559-567 | the value on top as often as the number under it says, no times if negative |
| `VmLaws.StoreLocalStores` | crates/glyim-bytecode-vm/src/lib.rs:652-674 | a store to a local is mirrored in its cell and, for a tuple, in the cells behind it; everything else is unchanged |
| `VmLaws.StoredIsRead` | crates/glyim-bytecode-vm/src/lib.rs:676-688 | what is stored at an address is what a dereference of it pushes |
| `VmLaws.OpcodesExact` | crates/glyim-bytecode-vm/src/lib.rs:141-186 | decoding a byte is the inverse of the wire format, on every byte |
| `Machine.Machine.SetLocalSlot` | crates/glyim-bytecode-vm/src/lib.rs:652-675 | a store is mirrored into memory, tuples unpacked behind it |
| `Machine.Machine.Switches` | crates/glyim-bytecode-vm/src/lib.rs:501-520 | the loop over the arms takes the last matching one |
| `Machine.Machine.PushCallFrame` | crates/glyim-bytecode-vm/src/lib.rs:361-391 | depth and function checks, zeroed locals with the arguments in front |
| `Machine.Machine.Calls` | crates/glyim-bytecode-vm/src/lib.rs:588-607 | operands, arguments in order, callee, then the new frame; `VmLaws.CallStarts` states it on the bytes |
| `Machine.Machine.Returns` | crates/glyim-bytecode-vm/src/lib.rs:568-587 | the value goes to the caller's destination, which resumes at the recorded target |
| `Machine.Machine.Tick` | crates/glyim-bytecode-vm/src/lib.rs:400-613 | one iteration of the driver is one step of the step function, errors and panics included |
| `Machine.Machine.Drive` | crates/glyim-bytecode-vm/src/lib.rs:400-613 | n iterations are n steps |
| `Machine.Machine.RunModule` | crates/glyim-bytecode-vm/src/lib.rs:335-343 | a module runs from its entry frame, and however it ends the object never holds more than 1024 frames |
| `Bytecode.EncodedRuns` | crates/glyim-bytecode-vm/src/lib.rs:400-531 | the driver on encoded straight-line code does what the instructions do one by one |
| `Peephole.Optimise` | crates/glyim-codegen/src/lib.rs:553-593 | the index loop is the recursive pass; it panics where folding a remainder does |
| `Peephole.PanicsIff` | crates/glyim-codegen/src/lib.rs:553-593 | the pass panics iff the stream holds a truncated constant or, at a site its flags admit, an undefined remainder |
| `Peephole.PassPreserves` | crates/glyim-codegen/src/lib.rs:553-593 | if the original runs, negates no tuple and holds no undefined remainder of flagged constants, the pass succeeds and the rewritten sequence ends in the same stack, locals and memory |
| `Peephole.RemainderPanics` | crates/glyim-codegen/src/lib.rs:468-492 | 1 REM 0 leaves 0 on the machine and panics the pass |
| `Peephole.ShortensIff` | crates/glyim-codegen/src/lib.rs:553-593 | the pass shortens the code iff two negations are neighbours or flagged constants can be folded somewhere, and else returns it unchanged |
| `Peephole.BytesKeptIff` | crates/glyim-codegen/src/lib.rs:553-723 | decoding, the pass and encoding leave a fixed-width stream alone iff no decoded neighbours are both negations and nothing can be folded |
| `Peephole.UnflaggedKeptIff` | crates/glyim-codegen/src/lib.rs:553-723 | without flags, iff no decoded neighbours are both negations |
| `Peephole.FoldRuns` | crates/glyim-codegen/src/lib.rs:468-492 | a folded constant is what the three instructions would have pushed |
| `Peephole.CancelExact` | crates/glyim-codegen/src/lib.rs:584-586 | two negations are the identity iff the value negated is not a tuple |
| `Peephole.OptimisedRunsSame` | crates/glyim-codegen/src/lib.rs:553-593 | under the same conditions the machine on the optimised bytes reaches the same stack, locals and memory |
| `Peephole.EncodeDecode` | crates/glyim-codegen/src/lib.rs:607-723 | decoding and encoding is the identity on code of fixed-width instructions |
| `Peephole.AssertReencoded` | crates/glyim-codegen/src/lib.rs:622-709 | an assertion survives decoding and encoding iff its flag equals every byte of its target |
| `Peephole.AddressOperandDeleted` | crates/glyim-codegen/src/lib.rs:553-723 | the pass deletes two operand bytes of an address load |
| `Emitter.GenerateFunction` | crates/glyim-codegen/src/lib.rs:515-531 | the emitted bytes of a scalar body, and the offset of each block in them |
| `Emitter.EmitBlock` | crates/glyim-codegen/src/lib.rs:749-1051 | statements, then the terminator's operand, then its control instructions |
| `Simulation.RunRvalue` | crates/glyim-codegen/src/lib.rs:773-960 | the code of an rvalue pushes its word and changes nothing else |
| `Simulation.RunStmts` | crates/glyim-codegen/src/lib.rs:749-772 | the code of a block's statements leaves the words of its assignments in the locals and nothing on the stack |
| `Simulation.BlockAt` | crates/glyim-codegen/src/lib.rs:515-531 | every block's code lies at its recorded offset |
| `Simulation.ControlMirrors` | crates/glyim-codegen/src/lib.rs:962-1051 | from a block's control instructions the machine reaches the block, or the failure, the terminator names |
| `Simulation.SwitchLands` | crates/glyim-codegen/src/lib.rs:973-990 | whatever the arms of a bool switch, the machine on its bytes goes to the otherwise block on a non-zero word and to the first arm's on 0 |
| `Simulation.OneArmExact` | crates/glyim-codegen/src/lib.rs:973-990 | the machine leaves a one-armed bool switch for the block MIR names iff, on 0, the arm is for 0, and on 1, not for 1, or it changes nothing |
| `Simulation.GuardIsInverted` | crates/glyim-lower/src/builder.rs:259-282 | the machine on the emitted guard of a flagged drop goes to the drop when the flag is clear and past it when it is set |
| `Simulation.FollowsWords` | crates/glyim-codegen/src/lib.rs:515-531 | for every n the machine reaches what the words reach after n blocks |
| `Simulation.StartsInEntry` | crates/glyim-bytecode-vm/src/lib.rs:335-391 | a module starts in the entry block with zeroed locals |
| `Interp.BinaryFollowsIff` | crates/glyim-mir-interp/src/lib.rs:822-955 | where the interpreter has a result, the machine's word is that result iff a condition on the operands holds: always for sums, products and bits, by the high parts for comparisons, by amount for shifts, by size and divisibility for quotients and remainders, unsigned numbers from 2^63 on included |
| `Interp.UnaryFollowsIff` | crates/glyim-mir-interp/src/lib.rs:957-962 | negation always; Not on bools always and on integers iff their word is -1 |
| `Interp.RingFollows` | crates/glyim-mir-interp/src/lib.rs:831-860 | 128-bit sums, differences, products and bitwise operations have the machine's 64-bit result in their low words |
| `Interp.CompareFollowsIff` | crates/glyim-mir-interp/src/lib.rs:861-866 | comparing words compares the numbers iff their high parts do not say otherwise |
| `Interp.ShlFollowsIff` | crates/glyim-mir-interp/src/lib.rs:859-860 | shift amounts modulo 128 against modulo 64 |
| `Interp.ShrFollowsIff` | crates/glyim-mir-interp/src/lib.rs:859-860 | right shifts of all signed and unsigned 64-bit numbers; from 2^63 on only a shift by nothing agrees |
| `Interp.DivFollowsIff` | crates/glyim-mir-interp/src/lib.rs:836-912 | quotients and remainders of all signed and unsigned 64-bit numbers: signed all but the least word by -1, unsigned from 2^63 on only by 1, by itself, by a divisor whose word is larger in size, or where both sides divide evenly |
| `Interp.IntegerNotDiffers` | crates/glyim-mir-interp/src/lib.rs:957-962 | Not of 5 is -6 to the interpreter and 0 to the machine |
| `Interp.UnsignedOrderDiffers` | crates/glyim-mir-interp/src/lib.rs:876-912 | 2^63 below 1 |
| `Interp.UnsignedHalfDiffers` | crates/glyim-mir-interp/src/lib.rs:876-912 | 2^63 by 2 is 2^62 to the interpreter and -2^62 to the machine |
| `Interp.UnsignedShiftDiffers` | crates/glyim-mir-interp/src/lib.rs:876-912 | the same for a right shift by one |
| `Interp.ZeroDivisionDiffers` | crates/glyim-mir-interp/src/lib.rs:836-855 | an error to the interpreter and 0 to the machine |
| `MirRun.RvalueFollowsIff` | crates/glyim-mir-interp/src/lib.rs:630-641 | where the interpreter has a value for an rvalue, the emitted code pushes its word iff the operation is followed |
| `MirRun.PlainRvalueFollowed` | crates/glyim-mir-interp/src/lib.rs:822-962 | copies, ring and logical operations, negation, and Not and equality of bools are followed whenever the interpreter has a value for them, and bool rvalues have bool values |
| `MirRun.PlainRunFollowed` | crates/glyim-mir-interp/src/lib.rs:281-375 | on a body of such rvalues, whose bool locals get bools and whose switches are on bools with at most an arm for 0, every run without a fault is followed |
| `MirRun.WordsFollow` | crates/glyim-mir-interp/src/lib.rs:281-375 | the words follow the interpreter's run for as long as its operations are followed |
| `MirRun.Simulates` | crates/glyim-codegen/src/lib.rs:515-531 | for every n whose operations are followed, the machine reaches what the interpreter reaches after n blocks: same block, words of the same locals, empty stack, or the failure that mirrors its end |
| `MirRun.EmittedModuleFollows` | crates/glyim-codegen/src/lib.rs:515-531 | the emitted module, from its start, follows the interpreter's run of its entry function |
| `MirRun.PlainSimulates` | crates/glyim-codegen/src/lib.rs:749-1051 | the simulation with a condition on the body alone, from any block and any store whose bool locals hold bools |
| `MirRun.PlainModuleFollows` | crates/glyim-codegen/src/lib.rs:749-1051 | the same for the emitted module from its start |
| `Lexer.RunIsMaximal` | crates/glyim-frontend/src/lexer.rs:466-474 | a run takes every character of its class and stops at the first other |
| `Lexer.Scanner.SkipBlockComment` | crates/glyim-frontend/src/lexer.rs:438-457 | the depth counter ends where the counting function does |
| `Lexer.Scanner.LexTrivia` | crates/glyim-frontend/src/lexer.rs:420-464 | the loop skips all trivia and reports whether there was any |
| `Lexer.Scanner.LexNumber` | crates/glyim-frontend/src/lexer.rs:476-609 | radix prefixes, fraction, exponent with its retreat, and suffix |
| `Lexer.Scanner.LexQuoted` | crates/glyim-frontend/src/lexer.rs:611-699 | a literal ends past its first unescaped quote, or with the source; `LexerLaws.QuotedExact` states which quote that is |
| `Lexer.Scanner.LexQuote` | crates/glyim-frontend/src/lexer.rs:132-187 | the lookahead that tells lifetimes from character literals |
| `Lexer.Scanner.LexOperator` | crates/glyim-frontend/src/lexer.rs:701-852 | the nested tests take the longest operator in the table |
| `Lexer.MunchMoves` | crates/glyim-frontend/src/lexer.rs:82-418 | every token is non-empty, so the lexer always advances |
| `Lexer.Scanner.Lex` | crates/glyim-frontend/src/lexer.rs:82-418 | the lexer terminates on every source with exactly the tokens of the scanning functions |
| `LexerLaws.CommentExact` | crates/glyim-frontend/src/lexer.rs:438-457 | the counter closes a comment at q iff the nesting grammar derives a comment ending at q |
| `LexerLaws.QuotedExact` | crates/glyim-frontend/src/lexer.rs:611-699 | a literal is closed at e iff its body is derived by the grammar of plain characters and backslash pairs without a plain quote, and a quote follows; otherwise no such e exists and it runs to the end |
| `LexerLaws.SkipIsTrivia` | crates/glyim-frontend/src/lexer.rs:420-464 | what is skipped is a sequence of white space and comments, and no more of it follows |
| `LexerLaws.FloatExactly` | crates/glyim-frontend/src/lexer.rs:476-584 | a number is a float iff it has no radix prefix and holds a dot or an exponent mark right after its leading digits |
| `LexerLaws.Lossless` | crates/glyim-frontend/src/lexer.rs:82-418 | tokens are non-empty, ordered, disjoint slices of the source with only trivia before, between and after |
| `LexerLaws.MunchCopied` | crates/glyim-frontend/src/lexer.rs:82-418 | a token's kind and extent depend on nothing that a following space would change |
| `LexerLaws.RelexingIsStable` | crates/glyim-frontend/src/lexer.rs:82-418 | joining the texts with spaces and lexing again gives the same kinds and texts, for every source |
| `TokenLaws.KeywordsExact` | crates/glyim-frontend/src/lexer.rs:872-919 | a word is the reserved word it spells, and an identifier iff it spells none |
| `TokenLaws.OperatorSpelled` | crates/glyim-frontend/src/lexer.rs:701-852 | a symbol token's text is the symbol of its kind |
| `TokenLaws.OperatorLongest` | crates/glyim-frontend/src/lexer.rs:701-852 | if a symbol is spelled at a position, one at least as long is found there |
| `TokenLaws.KindByStart` | crates/glyim-frontend/src/lexer.rs:82-418 | words, numbers, literals, lifetimes and symbols by the character they start with |
| `TokenLaws.LifetimeExactly` | crates/glyim-frontend/src/lexer.rs:132-187 | a quote starts a lifetime up to e iff a word up to e follows that no quote follows |
| `TokenLaws.PrefixedNumber` | crates/glyim-frontend/src/lexer.rs:476-520 | a number with a radix prefix is an integer and runs over letters, digits and underscores |
| `TokenLaws.NumberParts` | crates/glyim-frontend/src/lexer.rs:476-609 | where a number without a prefix ends, and whether it is a float, by its digits, fraction, exponent and suffix |
| `Mono.Devirtualize` | crates/glyim-lower/src/mono.rs:180-214 | every block is rewritten as `MonoLaws.CalleeChosen` says |
| `MonoLaws.CalleeChosen` | crates/glyim-lower/src/mono.rs:180-214 | a call naming a trait method becomes the same call of the function that the type of its first argument implements it by; every other block is kept |
| `Mono.Collector.ScanBodyForRefs` | crates/glyim-lower/src/mono.rs:149-172 | exactly the references not yet known are queued, in scanning order, glue last |
| `Mono.Collector.Process` | crates/glyim-lower/src/mono.rs:106-146 | a new item is scanned and gets the next index in items and cache |
| `Mono.Collector.Collect` | crates/glyim-lower/src/mono.rs:93-147 | over any universe closed under references it terminates; after any number of calls the items are exactly those reachable from all roots, each once, and the cache is a bijection onto their indices |
| `Mono.ChainStays` | crates/glyim-lower/src/mono.rs:93-147 | a set closed under references holds every chain that starts in it |
| `Mono.SeenIsReachable` | crates/glyim-lower/src/mono.rs:102-146 | once the queue is empty, seen is reachable and reachable is seen |
| `Mono.CalleesReachable` | crates/glyim-lower/src/mono.rs:149-338 | the instance every direct call names, and the glue of every dropped local, is among the reachable items |
| `Mono.RefsExact` | crates/glyim-lower/src/mono.rs:149-338 | a body refers to exactly the instances its direct calls name, the glue of the declared locals it drops and, only without a type context, the function constants among its scanned operands |
| `Mono.OnlyCallsWithContext` | crates/glyim-lower/src/mono.rs:242-267 | with a type context only direct calls and drops are references |
| `MonoLaws.ItemRefersIff` | crates/glyim-lower/src/mono.rs:106-338 | with a type context, an item refers to exactly what its body as given calls, resolves to or drops, each callee in the instance of its type |
| `MonoLaws.ResolvedReachable` | crates/glyim-lower/src/mono.rs:93-338 | the implementation a method call of a reachable item resolves to is reachable |
| `MonoLaws.RefsInOrder` | crates/glyim-lower/src/mono.rs:149-267 | references come in the order of blocks, statements and operands |
| `Mono.NothingYet` | crates/glyim-lower/src/mono.rs:68-84 | a new collector is a collection for no roots |
| `Partition.GroupByModule` | crates/glyim-lower/src/partition.rs:26-42 | one ascending group per module, in module order |
| `Partition.MergeOnce` | crates/glyim-lower/src/partition.rs:45-80 | the first smallest group moves into the last largest |
| `Partition.OneGroup` | crates/glyim-lower/src/partition.rs:49-70 | one group is both smallest and largest iff it is the only one |
| `Partition.Partition` | crates/glyim-lower/src/partition.rs:18-84 | the loops compute the deterministic merge of the module groups |
| `Partition.MergeKeeps` | crates/glyim-lower/src/partition.rs:70-80 | merging two groups keeps the partition and splits no module |
| `Partition.PartitionExact` | crates/glyim-lower/src/partition.rs:18-84 | a true partition into non-empty ascending groups that splits no module, min(modules, max(1, max_cgus)) of them |
| `DropChain.MirBuilder.AddLink` | crates/glyim-lower/src/builder.rs:247-283 | a link prepends its drop to every walk from its target, if the flag allows it |
| `DropChain.MirBuilder.ElaborateScopeDrops` | crates/glyim-lower/src/builder.rs:212-290 | for every valuation of the flags the walk from the fall-through block returns after the drops that are due, and no other earlier block changes |
| `DropChain.TraceUnique` | crates/glyim-lower/src/builder.rs:212-290 | there is only one such walk |
| `DropChain.DropsExact` | crates/glyim-lower/src/builder.rs:212-290 | each droppable non-parameter local once, iff it has no flag or its flag is set, in order of declaration |
| `DropChain.MirBuilder.RegisterDropFlagInit` | crates/glyim-lower/src/builder.rs:311-330 | a new flag is set, a second registration changes nothing, other flags keep their values |
| `DropChain.MirBuilder.RegisterPartialMove` | crates/glyim-lower/src/builder.rs:343-362 | the local's flag is cleared, other flags keep their values |
| `DropChain.MirBuilder.LowerBody` | crates/glyim-lower/src/builder.rs:134-204 | a straight-line body declares its parameters, bindings, temporaries and flags in order, starts the storage of parameters and bindings, and drops exactly the droppable locals never moved out of |
| `DropChain.BindingDropped` | crates/glyim-lower/src/builder.rs:134-362 | a binding that needs dropping is dropped iff it is never moved out of |
| `Align.AlignToRoundsUp` | crates/glyim-layout/src/lib.rs:26-30 | adding and clearing the mask on 64-bit words rounds up to the next multiple of a power of two |
| `Align.AndMask` | crates/glyim-layout/src/lib.rs:26-30 | clearing the low bits rounds down |
| `Layout.ComputePacked` | crates/glyim-layout/src/lib.rs:300-325 | laying out and placing fields in one loop is laying out all, with the first error, and then packing them |
| `Layout.ComputeUnion` | crates/glyim-layout/src/lib.rs:378-396 | the loop's running maxima are the greatest size and alignment of the members, or the first error |
| `Layout.DirectTag` | crates/glyim-layout/src/lib.rs:666-708 | the one-pass maximum over the variants is the direct-tag layout the laws are about |
| `Layout.Compute` | crates/glyim-layout/src/lib.rs:774-839 | the recursive computer over all modelled types |
| `LayoutLaws.PackedPlaced` | crates/glyim-layout/src/lib.rs:300-376 | packed fields are aligned, in order, disjoint and inside |
| `LayoutLaws.AlignedAnywhere` | crates/glyim-layout/src/lib.rs:300-376 | wherever the whole is aligned, every field is |
| `LayoutLaws.UnionPlaced` | crates/glyim-layout/src/lib.rs:378-396 | every member fits at offset 0 |
| `LayoutLaws.ArrayPlaced` | crates/glyim-layout/src/lib.rs:327-355 | an array succeeds iff its size fits 64 bits; then stride is element size and the elements fill it |
| `LayoutLaws.TagHolds` | crates/glyim-layout/src/lib.rs:654-664 | the tag can hold every variant index |
| `LayoutLaws.TaggedPlaced` | crates/glyim-layout/src/lib.rs:666-708 | every payload starts past the tag, aligned, and ends inside |
| `LayoutLaws.SharedOffsetFitsIff` | crates/glyim-layout/src/lib.rs:684-693 | a variant fits at the offset shared by all variants iff the tag is no smaller than any alignment or some variant ends past its size rounded up to the greatest alignment |
| `LayoutLaws.LayoutsWellFormed` | crates/glyim-layout/src/lib.rs:300-376 | by induction on types: power-of-two alignments dividing sizes, and all of the above |
| `LayoutExact.LeavesExact` | crates/glyim-layout/src/lib.rs:774-839 | a scalar has exactly its bits and is aligned to its size, a fat pointer is two addresses, never is empty, unit is the empty tuple, slices and empty enumerations have no layout |
| `LayoutExact.PartsInOrder` | crates/glyim-layout/src/lib.rs:300-325 | every part gets its own layout, in order, or the first failure is reported |
| `LayoutExact.PackedLeast` | crates/glyim-layout/src/lib.rs:300-376 | no placement of the fields in their order, aligned and disjoint, is smaller, less aligned, or puts any field earlier |
| `LayoutExact.UnionLeast` | crates/glyim-layout/src/lib.rs:378-396 | no union of the members is smaller or less aligned |
| `LayoutExact.TagLeast` | crates/glyim-layout/src/lib.rs:654-664 | no smaller power of two of bytes tells the variants apart |
| `LayoutExact.TaggedLeast` | crates/glyim-layout/src/lib.rs:666-708 | no tagged layout of the variants is smaller or less aligned, wherever it puts the payloads behind its tag |
| `LayoutExact.ArrayLaidOutIff` | crates/glyim-layout/src/lib.rs:327-355 | an array has a layout iff its count is a number of 64 bits and the whole fits; a count that is no number is an unknown type |
| `LayoutBackend.ComputeBackend` | crates/glyim-codegen-llvm/src/abi.rs:83-134 | the backend's recursive computer on types without tagged enumerations |
| `LayoutBackend.BackendAgrees` | crates/glyim-codegen-llvm/src/abi.rs:83-134 | wherever the simple computer succeeds the backend gives the same size, alignment and offsets |
| `LayoutBackend.OverflowIsSaturated` | crates/glyim-codegen-llvm/src/abi.rs:115-134 | where an array overflows, the simple computer fails and the backend does not |
| `LayoutExact.BackendArray` | crates/glyim-codegen-llvm/src/abi.rs:115-134 | the backend takes the count modulo 2^64 and caps the size at 2^64 - 1 |
| `LayoutBackend.TagsAgreeIff` | crates/glyim-codegen-llvm/src/abi.rs:168-176 | the variant counts for which both computers choose a tag of the same size |
| `LayoutBackend.PayloadAlignedIff` | crates/glyim-codegen-llvm/src/abi.rs:168-194 | for every variant count, a payload field is aligned in the backend iff its alignment divides the start of payloads, which is the tag's size if that is a power of two and 5, 9, 10 or 9 for a tag of 3, 5, 6 or 7 bytes |
| `LayoutBackend.EnumsAgreeIff` | crates/glyim-codegen-llvm/src/abi.rs:161-216 | with equal tags, the alignments agree iff none is below the tag's, and the sizes iff the backend's is a multiple of the simple computer's alignment and every payload ends inside it |
| `LayoutBackend.PayloadMisaligned` | crates/glyim-codegen-llvm/src/abi.rs:186-194 | a 64-bit payload at 8 in one computer and at 1 in the other |
| `LayoutBackend.SharedOffsetOverruns` | crates/glyim-layout/src/lib.rs:684-693 | the layout of an enumeration of nine bytes and a 64-bit integer, whose first variant does not fit at the shared offset |

## Left out

- TwoPhase.Compute: proved for undisturbed loans only, because on the others the worklist need not stop or gives another answer; `TwoPhaseLimits.HaltsExactlyIffUndisturbed` is the exact condition.
- TwoPhase.Compute: a loan names an existing statement; the source builds its loans that way.
- MoveEffects.ComputeMoveDataflow: for bodies whose lookups add no path; for the arena the source builds, `MovePaths.LookupGrowsIff` says which those are, and for the others the source panics on a bit set that is too small.
- MoveEffects.ComputeStmtMoved: the same.
- MoveEffects.Collect: the effects of a block are given in order; the source walks statements and operands in that order.
- Emitter.GenerateFunction: whole-local assignments of `Use`, binary operations, negation and `Not` over constants and whole locals, with `Goto`, bool switches, `Assert`, `Return` and `Unreachable`; floats, strings, aggregates, calls, drops, projections and non-bool switches are outside, as are their wire formats.
- MirRun.Simulates: for runs whose operations are followed, which `PlainRunFollowed` derives from the body for bodies without division, shifts and comparisons of integers; where the interpreter stops with a fault, or an operation is not followed, the machine goes on with another word.
- MirRun.Simulates: the interpreter with panics that abort, its default; unwinding into cleanup blocks and its step limit are not modelled.
- Interp.BinaryFollowsIff: for divisions and right shifts the condition is exact for pairs of signed and pairs of unsigned 64-bit numbers, and false outside; such operands are constants wider than any integer type, or left by 128-bit results that the interpreter does not wrap to their type.
- Interp.UnaryOf: negation of the least 128-bit integer wraps; the source panics there in builds with overflow checks.
- Interp.BinaryOf: floats are not modelled.
- Emitter.EmitBlock: appends instruction by instruction; the source appends byte by byte.
- Peephole.EncodeDecode: not for instructions of variable width.
- Machine.Machine.Drive: the source's loop has no bound; the model stops after n iterations, for every n.
- Vm.StepFrames: unbounded vectors; exhaustion of host memory is not modelled, an address of 2^64 - 1 panics.
- Lexer.Scanner.Lex: positions count characters, not bytes of UTF-8; diagnostics are not recorded; the Unicode classes are parameters that agree with ASCII.
- Mono.Collector.Collect: the type context and the body callbacks are parameters; symbols and polymorphization are not modelled.
- Layout.Compute: niche encoding is not modelled, an enumeration stands for one that gets a direct tag; closures and generic arguments that are not types are left out.
- LayoutLaws.LayoutsWellFormed: assumes that no intermediate size overflows 64 bits.
- LayoutBackend.ComputeBackend: enumerations of two or more variants are covered by `BackendEnum` and the laws about it.
- LayoutBackend.EnumsAgreeIff: for variant counts with equal tags, which `TagsAgreeIff` gives.
- Peephole.BytesKeptIff: not for instructions of variable width or `ASSERT`.
- DropChain.MirBuilder.LowerBody: straight-line bodies; what branches and loops do to `current_block` is not modelled.
- Indices that the source stores in 32 bits are unbounded.
- LLVM lowering, debug information, exception tables, passes, the linker, the language server, the database and the command line.
- Type checking, name resolution, constant evaluation, the parser and the formatter.
- A soundness claim for `check_borrows` and `check_moves` as a whole, and all diagnostic texts.
