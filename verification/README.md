# A verified model of KLEE's symbolic state and of the CGS scheduler

The project models, in Dafny 4.11, the machinery that decides what a symbolic execution means: the
expression algebra, the constraint sets, symbolic memory and its sharing between forked states, the
executor's path management, and the schedulers and analyses that work on top of them. `dafny verify
dfyconfig.toml` checks all of it.

- **Expressions.** `BitVector`, `Expressions`, `BinaryMeanings`, `SmartConstructors`,
  `ConstructorSoundness`, `SizeBounds`. Values are naturals modulo 2^w; an assignment gives bytes to the symbolic arrays. The mutually
  recursive constructors terminate by a weight that no rewrite increases, and each of them has the
  value of the plain node under every assignment. What a binary operation means is stated apart from the
  functions that compute it: by the division law and by bits.
- **Constraints.** `ExprVisitors`, `Constraints`, `Solvers`. Rewriting with a memo table, simplification
  against known equalities, and the constraint manager, whose nested rewriting terminates by the total
  weight. The solver is an oracle over satisfying assignments.
- **Memory.** `ByteOrder`, `ObjectStates`, `MemoryRuns`: an object state refines a plain byte array.
  `PointerBounds`, `Resolution`: bounds checks, and the ordered search for the objects a pointer may lie
  in. `AddressSpaces`, `MemoryForests`: copy on write refines memories that share nothing.
- **Paths.** `SwitchConditions`, `ConstraintMerging`, `Paths`, `Executors`: over every run of forks,
  switches, merges and terminations each input follows exactly one path, and the run is a replay of its
  steps. `ExecutionStates`: merging of registers, memory and constraints.
- **Schedulers and analyses.** `ProcessTrees`, `RandomPathSearchers`: the tagged process tree.
  `CgsQueues`, `CgsSearchers`: the two-queue searcher and its pools of branches, on values and as the
  objects that refine them. `ReturnDistances`: the interprocedural distance to a return. `CallPaths`: the
  call tree that folds recursion. `CallGraphs`: reachability. `SelectTables`: constant tables as nested
  selects.
- `Basics` has options and sequences without duplicates.

Where code and documentation differ, the model follows the code. `AddressSpace::resolve` is documented
never to return more objects than its cap, but the cap is not looked at when the list has one element:
`Resolution.Resolve` keeps a cap of two or more, and `Resolution.CapIgnored` shows a cap of one exceeded.
`buildConstantSelectExpr` compares indices as signed, so a run that reaches the negative half of the
index width is missed: `SelectTables.BuildConstantSelectExpr` says for exactly which elements the result
is right, and `SelectTables.RunMissed` gives an instance at 32 bits.

## Model

| member | source | states |
|---|---|---|
| `ConstructorSoundness.AddSound` | klee/lib/Expr/Expr.cpp:791-814 | The sum constructor, through all its mutual recursion with the difference constructor, evaluates under every assignment to the sum modulo 2^w of its operands. |
| `ConstructorSoundness.AddPartialRSound` | klee/lib/Expr/Expr.cpp:768-789 | A constant added on the left: one-bit case, zero, and re-association through sums and differences with constants. |
| `ConstructorSoundness.SubSound` | klee/lib/Expr/Expr.cpp:839-864 | The difference constructor evaluates under every assignment to the difference modulo 2^w, also where equal operands fold to zero. |
| `ConstructorSoundness.SubPartialRSound` | klee/lib/Expr/Expr.cpp:816-837 | Subtracting from a constant, through sums and differences with constants. |
| `SizeBounds.AddSize` | klee/lib/Expr/Expr.cpp:791-814 | A sum wider than one bit has at most |l| + |r| + 1 nodes. |
| `SizeBounds.SubSize` | klee/lib/Expr/Expr.cpp:839-864 | A difference wider than one bit has at most |l| + |r| + 1 nodes. |
| `SizeBounds.AddPartialSize` | klee/lib/Expr/Expr.cpp:768-786 | A constant plus an expression has at most two nodes more than the expression. |
| `SizeBounds.SubPartialSize` | klee/lib/Expr/Expr.cpp:816-832 | A constant minus an expression has at most two nodes more than the expression. |
| `SmartConstructors.AddCreate` | klee/lib/Expr/Expr.cpp:791-814 | Right width, and weight at most that of the plain node: the bound under which the mutual recursion with differences terminates. |
| `SmartConstructors.SubCreate` | klee/lib/Expr/Expr.cpp:839-864 | The same bound for differences. |
| `SmartConstructors.ConcatCreate` | klee/lib/Expr/Expr.cpp:640-662 | Right width, and weight at most that of the plain node; terminates together with extraction. |
| `SmartConstructors.ExtractCreate` | klee/lib/Expr/Expr.cpp:692-718 | Right width, and weight at most that of the plain node; terminates together with concatenation. |
| `ConstructorSoundness.MulSound` | klee/lib/Expr/Expr.cpp:866-890 | A product evaluates to the product modulo 2^w, with the one-bit, zero and one cases. |
| `ConstructorSoundness.AndSound` | klee/lib/Expr/Expr.cpp:892-906 | A conjunction evaluates to the bitwise conjunction. |
| `ConstructorSoundness.OrSound` | klee/lib/Expr/Expr.cpp:908-922 | A disjunction evaluates to the bitwise disjunction. |
| `ConstructorSoundness.XorSound` | klee/lib/Expr/Expr.cpp:924-939 | An exclusive or evaluates to the bitwise exclusive or; a one-bit operand against a constant becomes a test for zero. |
| `ConstructorSoundness.PlainSound` | klee/lib/Expr/Expr.cpp:941-996 | Division, remainder and shifts, with their one-bit cases, evaluate to what the operation means: quotients by the division law, shifts by the bits they keep. |
| `ConstructorSoundness.FoldMeans` | klee/lib/Expr/Expr.cpp:416-470 | Folding two constants gives what each operation means; read as signed, quotient and remainder divide toward zero, except the least value by minus one. |
| `BinaryMeanings.TruncDivides` | klee/lib/Expr/Expr.cpp:436-446 | The dividend is divisor times quotient plus remainder; the remainder is smaller than the divisor and has the sign of the dividend. |
| `BinaryMeanings.TruncDivisionUnique` | klee/lib/Expr/Expr.cpp:436-446 | Only one quotient and remainder are so. |
| `BinaryMeanings.BitwiseBits` | klee/lib/Expr/Expr.cpp:448-458 | Each bit of and, or and xor comes from the same bit of the operands. |
| `BinaryMeanings.ShlBits` | klee/lib/Expr/Expr.cpp:460-462 | A left shift moves the bits up and fills with zeros; by the width or more it leaves none. |
| `BinaryMeanings.AShrBits` | klee/lib/Expr/Expr.cpp:468-470 | A signed right shift keeps the higher bits and fills with the sign bit. |
| `BinaryMeanings.BinaryMeans` | klee/lib/Expr/Expr.cpp:416-470 | The value computed for each of the thirteen operations is the one meant. |
| `BinaryMeanings.MeansUnique` | klee/lib/Expr/Expr.cpp:416-470 | No other value of the width is meant, unless the divisor is zero. |
| `BinaryMeanings.SignedResults` | klee/lib/Expr/Expr.cpp:436-446 | The signed quotient and remainder fit the width, except the quotient of the least value by minus one, which wraps to itself. |
| `ConstructorSoundness.BinarySound` | klee/lib/Expr/Expr.cpp:999-1040 | Every binary constructor evaluates as the plain node, to what the operation means. |
| `ConstructorSoundness.EqSound` | klee/lib/Expr/Expr.cpp:1057-1095 | Equality evaluates to whether the operands are equal. |
| `ConstructorSoundness.EqPartialRSound` | klee/lib/Expr/Expr.cpp:1097-1176 | Equality with a constant: Boolean constants, negated disjunctions, narrowing through sign and zero extension, and moving sums and differences to the constant. |
| `ConstructorSoundness.NegationSound` | klee/lib/Expr/Expr.cpp:326-328 | The test for zero of a condition holds exactly when the condition does not. |
| `ConstructorSoundness.NeSound` | klee/lib/Expr/Expr.cpp:1178-1181 | Disequality is equality negated. |
| `ConstructorSoundness.OrderSound` | klee/lib/Expr/Expr.cpp:1197-1212 | Unsigned orders evaluate as the plain node, also where a Boolean operand turns them into connectives. |
| `ConstructorSoundness.SignedOrderSound` | klee/lib/Expr/Expr.cpp:1214-1228 | Signed orders evaluate as the plain node, also where a Boolean operand turns them into connectives. |
| `ConstructorSoundness.CompareSound` | klee/lib/Expr/Expr.cpp:1178-1234 | Every comparison constructor, the mirrored ones included, evaluates as the plain node, which holds exactly by the order of the unsigned values, or for the signed ones by that order with the sign bits flipped. |
| `BinaryMeanings.CompareMeans` | klee/lib/Expr/Expr.cpp:472-510 | The signed order computed is the unsigned one with the sign bits flipped. |
| `ConstructorSoundness.ConcatSound` | klee/lib/Expr/Expr.cpp:640-662 | A concatenation evaluates to the joined value, also where adjacent extracts of one source merge. |
| `ConstructorSoundness.ExtractSound` | klee/lib/Expr/Expr.cpp:692-718 | An extraction evaluates to the slice, also across the parts of a concatenation. |
| `ConstructorSoundness.ZExtSound` | klee/lib/Expr/Expr.cpp:732-743 | Zero extension, or truncation when the target is narrower. |
| `ConstructorSoundness.SExtSound` | klee/lib/Expr/Expr.cpp:745-756 | Sign extension, or truncation when the target is narrower. |
| `ConstructorSoundness.NotSound` | klee/lib/Expr/Expr.cpp:722-728 | The complement evaluates to the complement. |
| `ConstructorSoundness.SelectSound` | klee/lib/Expr/Expr.cpp:609-636 | A selection evaluates to the chosen operand, with the Boolean shortcuts. |
| `ConstructorSoundness.ReadSound` | klee/lib/Expr/Expr.cpp:555-603 | A read of a constant index, rolled back past the updates it provably misses, evaluates as a read of the whole update list. |
| `ConstructorSoundness.ReadExprCreate` | klee/lib/Expr/Expr.cpp:555-603 | The loop over the update list returns the expression that the recursive definition gives. |
| `ConstructorSoundness.RebuildSound` | klee/lib/Expr/ExprVisitor.cpp:100-113 | Rebuilding a node from children with equal values gives an expression with the same value. |
| `ExprVisitors.VisitedSound` | klee/lib/Expr/ExprVisitor.cpp:42-127 | A rewrite whose replacements agree under an assignment preserves the value under it, for both replacing visitors, through rebuilding and revisiting. |
| `ExprVisitors.ExprVisitor.Visit` | klee/lib/Expr/ExprVisitor.cpp:26-40 | The memo table changes nothing: the result is that of the plain recursive rewrite. |
| `ExprVisitors.ExprVisitor.VisitActual` | klee/lib/Expr/ExprVisitor.cpp:42-127 | One node is rewritten as the recursive definition says. |
| `Constraints.SimplifyExpr` | klee/lib/Expr/Constraints.cpp:92-116 | The simplified expression has the same width and, in every solution of the constraints, the same value. |
| `Constraints.ConstraintManager.AddConstraint` | klee/lib/Expr/Constraints.cpp:158-161 | The new set has exactly the solutions of the old one that satisfy the new constraint; the stop at an invalid constraint is reached only if there are none. |
| `Constraints.ConstraintManager.AddConstraintInternal` | klee/lib/Expr/Constraints.cpp:118-156 | The same for the recursive step, with the weight bound under which it and the rewriting of constraints terminate. |
| `Constraints.ConstraintManager.RewriteConstraints` | klee/lib/Expr/Constraints.cpp:73-90 | Under every assignment that agrees with the replacement, the rewritten set has the same solutions; without a change the set is as it was. |
| `ObjectStates.ObjectState.constructor` | klee/lib/Core/Memory.cpp:76-94 | A new object state is valid and holds zeros. |
| `ObjectStates.ObjectState.Symbolic` | klee/lib/Core/Memory.cpp:96-108 | A symbolic object state holds the elements of its array. |
| `ObjectStates.ObjectState.Copy` | klee/lib/Core/Memory.cpp:110-128 | A copy is valid, holds the same bytes and has no owner. |
| `ObjectStates.ObjectState.GetUpdates` | klee/lib/Core/Memory.cpp:144-193 | Creating the constant array under the list changes no byte, cached or flushed. |
| `ObjectStates.ObjectState.MakeSymbolic` | klee/lib/Core/Memory.cpp:221-231 | Afterwards every byte is that of the array under the list. |
| `ObjectStates.ObjectState.FlushRangeForRead` | klee/lib/Core/Memory.cpp:261-281 | Flushing for a read changes no byte; the range is in the list afterwards. |
| `ObjectStates.ObjectState.FlushRangeForWrite` | klee/lib/Core/Memory.cpp:283-312 | Flushing for a write changes no byte; the range has left the cache afterwards. |
| `ObjectStates.ObjectState.MarkByteFlushed` | klee/lib/Core/Memory.cpp:342-348 | Without a mask, every byte becomes flushed and not only the one named. |
| `ObjectStates.ObjectState.SetKnownSymbolic` | klee/lib/Core/Memory.cpp:350-360 | The table entry is set; no table is made for an absent value. |
| `ObjectStates.ObjectState.Read8` | klee/lib/Core/Memory.cpp:364-375 | Evaluates under every assignment to the byte of the plain array; no byte changes. |
| `ObjectStates.ObjectState.Read8Symbolic` | klee/lib/Core/Memory.cpp:377-392 | The same at a symbolic offset inside the object, after flushing; no byte changes. |
| `ObjectStates.ObjectState.Write8Concrete` | klee/lib/Core/Memory.cpp:394-401 | Stores the byte in the plain array. |
| `ObjectStates.ObjectState.Write8` | klee/lib/Core/Memory.cpp:403-413 | Stores the value of the expression in the plain array. |
| `ObjectStates.ObjectState.Write8Symbolic` | klee/lib/Core/Memory.cpp:415-430 | Stores at the value of the offset, under every assignment. |
| `ObjectStates.ObjectState.Read` | klee/lib/Core/Memory.cpp:434-459 | Evaluates to the value assembled from the plain array at the offset, in either byte order. |
| `ObjectStates.ObjectState.ReadAtOffset` | klee/lib/Core/Memory.cpp:461-477 | The same at a constant offset. |
| `ObjectStates.ObjectState.Write` | klee/lib/Core/Memory.cpp:479-504 | Stores the bytes of the value at the offset, in either byte order, and no others. |
| `ObjectStates.ObjectState.WriteAtOffset` | klee/lib/Core/Memory.cpp:506-561 | The same at a constant offset, with the special widths. |
| `ByteOrder.Spliced` | klee/lib/Core/Memory.cpp:506-561 | After a store the byte at each place is that of its significance: counted from the front in little-endian order, from the back in big-endian order; other bytes stay. |
| `ByteOrder.AssembledMeaning` | klee/lib/Core/Memory.cpp:439-477 | The low bytes read are the first in little-endian order and the last in big-endian order, each worth 256 times the one before. |
| `ObjectStates.ReadValue` | klee/lib/Core/Memory.cpp:439-477 | The value read is the bytes from the offset on in positional notation, the first or the last least significant by byte order; one bit is the byte's parity. |
| `ByteOrder.ByteRoundTrip` | klee/lib/Core/Memory.cpp:461-561 | A value of n bytes survives being stored and assembled, in either byte order. |
| `MemoryRuns.ValueRoundTrip` | klee/lib/Core/Memory.cpp:434-561 | In the plain array a stored value of any byte-multiple width, or one bit, is read back. |
| `MemoryRuns.WriteThenRead` | klee/lib/Core/Memory.cpp:434-537 | A write followed by a read of the same place evaluates to the value written, and all other bytes stay. |
| `MemoryRuns.SymbolicSums` | klee/lib/Expr/Expr.cpp:768-864 | Adding a constant to a folded symbolic expression, or subtracting one from a constant, leaves it symbolic and folded. |
| `MemoryRuns.FoldedAddressable` | klee/lib/Core/Memory.cpp:449-459 | An offset of any width whose parts are folded may be used for an access exactly unless its low 32 bits are a constant out of bounds: its byte offsets are symbolic, as the symbolic accesses assert. |
| `MemoryRuns.Run` | klee/lib/Core/Memory.cpp:364-430 | After any sequence of reads, writes and flushes the object holds the bytes of the plain array, and each read evaluates to what the array held then, whatever the later accesses. |
| `Solvers.Solver.EvaluateCorrect` | klee/lib/Core/TimingSolver.cpp:26-45 | The verdict is true, false or unknown exactly as the condition holds in all, no or some solutions. |
| `Solvers.Solver.MustBeTrueCorrect` | klee/lib/Core/TimingSolver.cpp:47-65 | Must means in all solutions. |
| `Solvers.Solver.MayBeTrueCorrect` | klee/lib/Core/TimingSolver.cpp:72-80 | May means in some solution. |
| `Solvers.Solver.GetValueCorrect` | klee/lib/Core/TimingSolver.cpp:90-109 | The value is that in some solution. |
| `SwitchConditions.BuildConditions` | klee/lib/Core/Executor.cpp:3079-3163 | The conditions of a symbolic switch: each block has one, each is possible, each is satisfied only by inputs that a concrete switch sends there, and together they cover the state. |
| `SwitchConditions.DestinationOfCase` | klee/lib/Core/Executor.cpp:3092-3098 | A concrete switch on a case value goes to the successor of that case. |
| `ConstraintMerging.MergeConstraints` | klee/lib/Core/ExecutionState.cpp:185-318 | The merged set has the solutions of either set; among them the condition of A's suffix holds exactly in A's solutions, and that of B's in B's. |
| `Paths.PartitionSplit` | klee/lib/Core/Executor.cpp:1047-1128 | Splitting a path by conditions of which each of its inputs satisfies exactly one keeps the paths a partition of all inputs. |
| `Paths.PartitionMerge` | klee/lib/Core/MergeHandler.cpp:104-119 | Merging two paths into one keeps the partition. |
| `Executors.ForkSplits` | klee/lib/Core/Executor.cpp:1304-1362 | A condition and its negation, both possible, split a state. |
| `Executors.DispatchExact` | klee/lib/Core/Executor.cpp:3146-3165 | In a switch, an input of the state satisfies the condition of a block exactly when it is sent there. |
| `Executors.Executor.AddConstraint` | klee/lib/Core/Executor.cpp:1377-1385 | A condition that the state admits narrows its inputs to those that satisfy it, and the fatal error is not reached. |
| `Executors.Executor.Branch` | klee/lib/Core/Executor.cpp:1047-1128 | The state and its copies share its inputs by condition; all other paths stay. |
| `Executors.Executor.Fork` | klee/lib/Core/Executor.cpp:1186-1375 | Each outcome has a state exactly if it is possible, with exactly the inputs that satisfy it; a query that times out ends the path. |
| `Executors.Executor.Switch` | klee/lib/Core/Executor.cpp:3079-3170 | Each resulting state has exactly the inputs that a concrete switch sends to its block. |
| `Executors.Executor.Merge` | klee/lib/Core/MergeHandler.cpp:104-119 | The merged path has the inputs of both; the other one is gone and not finished. |
| `Executors.Executor.TerminateState` | klee/lib/Core/Executor.cpp:4510-4534 | The state is live no more; one the searcher never saw is deleted at once. |
| `Executors.Executor.UpdateStates` | klee/lib/Core/Executor.cpp:4193-4216 | The states are the live ones, the lists are empty, and every removed state was there. |
| `Executors.Executor.Perform` | klee/lib/Core/Executor.cpp:1047-1375 | One step: a fork gives each possible outcome its state, a time-out or termination takes the state from the live ones, a switch sends inputs to their blocks, a merge joins two paths, an update publishes the live states; a step of a state that is not live does nothing. |
| `Executors.Executor.Run` | klee/lib/Core/Executor.cpp:1047-1375 | A run is a replay of its steps, each doing to the paths and states what its kind demands; at any time each input satisfies the constraints of exactly one live or finished path, and finished paths stay as they were. |
| `Executors.Explore` | klee/lib/Core/Executor.cpp:1047-1375 | The same for every run from the unconstrained state, one live path without constraints. |
| `PointerBounds.OffsetSound` | klee/lib/Core/Memory.h:115-117 | The offset expression is the wrapped difference of pointer and base. |
| `PointerBounds.OffsetCheckSound` | klee/lib/Core/Memory.h:125-132 | The check of an offset holds exactly below the object's extent; an object of no bytes takes up its address. |
| `PointerBounds.PointerCheckSound` | klee/lib/Core/Memory.h:118-120 | The check of a pointer holds exactly when it lies in the object, without wrapping. |
| `PointerBounds.BytesCheckSound` | klee/lib/Core/Memory.h:133-141 | The check of an access holds exactly when all its bytes lie in the object, except for no bytes of the largest object, where the 32-bit limit wraps. |
| `Resolution.ResolveConstant` | klee/lib/Core/AddressSpace.cpp:57-75 | The object at an address is found exactly if there is one, and there is at most one. |
| `Resolution.ResolveOne` | klee/lib/Core/AddressSpace.cpp:77-169 | An object that the pointer may lie in, or none exactly when it can lie in none, despite both early exits. |
| `Resolution.CheckPointerInObject` | klee/lib/Core/AddressSpace.cpp:171-205 | The object joins the list exactly if the pointer may lie in it; completeness and the cap are reported as the code does, the cap never at one. |
| `Resolution.Resolve` | klee/lib/Core/AddressSpace.cpp:207-292 | The list has no duplicates and only possible objects; when reported complete it has all of them; only the cap, if greater than one, or lateness makes it incomplete, and then the cap is kept. |
| `Resolution.CapIgnored` | klee/lib/Core/AddressSpace.cpp:190-201 | With a cap of one, a 64-bit pointer that may lie in two objects resolves to both. |
| `AddressSpaces.AddressSpace.Copy` | klee/lib/Core/AddressSpace.h:67-68 | Both sides of a fork move to the same new epoch, and an object state bound in two spaces keeps an owner below both epochs. |
| `AddressSpaces.AddressSpace.BindObject` | klee/lib/Core/AddressSpace.cpp:25-29 | The object state is owned by the epoch and bound nowhere else; ownership stays in order. |
| `AddressSpaces.AddressSpace.UnbindObject` | klee/lib/Core/AddressSpace.cpp:31-33 | Ownership stays in order. |
| `AddressSpaces.AddressSpace.GetWriteable` | klee/lib/Core/AddressSpace.cpp:40-53 | The result has the same bytes, is owned by the epoch, and no other binding of any space has it. |
| `AddressSpaces.OwnerExclusive` | klee/lib/Core/AddressSpace.h:58-65 | What the current epoch of a space owns is bound once in all spaces. |
| `AddressSpaces.ForkOwned` | klee/lib/Core/AddressSpace.h:67-68 | The ownership invariant survives a fork of any of the spaces. |
| `AddressSpaces.BindOwned` | klee/lib/Core/AddressSpace.cpp:25-53 | The ownership invariant survives binding an object state bound nowhere else. |
| `MemoryForests.MakeWriteable` | klee/lib/Core/AddressSpace.cpp:40-53 | The object gets an object state of its own; what any space shows, and what is read-only, stays. |
| `MemoryForests.Access` | klee/lib/Core/Executor.cpp:5109-5125 | An access through one space acts on its memory as on plain arrays and leaves every other space alone, though reads flush shared object states; only the bytes of the written object are unknown after a write that leaves it. |
| `MemoryForests.Forest.Fork` | klee/lib/Core/AddressSpace.h:67-68 | A fork acts as a copy of the whole memory. |
| `MemoryForests.Protect` | klee/lib/Core/Memory.h:212 | The object becomes read-only in this space, and no other space sees a change. |
| `MemoryForests.Forest.Run` | klee/lib/Core/AddressSpace.cpp:25-53 | Over every run of forks, allocations, frees, protections, reads and writes, and under every assignment, each space shows what a copy of its own would hold, and each read of known bytes evaluates to them; a write that leaves its object loses that object in that space and nothing else. |
| `ExecutionStates.MergeBytes` | klee/lib/Core/ExecutionState.cpp:304-309 | Every byte becomes the choice between the two objects' bytes; the other object keeps its bytes. |
| `ExecutionStates.MergeMemory` | klee/lib/Core/ExecutionState.cpp:295-310 | Under every assignment the memory is A's if A's suffix holds and B's otherwise; no other space changes. |
| `ExecutionStates.MergeStack` | klee/lib/Core/ExecutionState.cpp:278-293 | Every register set on both sides becomes the choice between them, any other stays. |
| `ExecutionStates.CompareStacks` | klee/lib/Core/ExecutionState.cpp:172-184 | The stacks are alike exactly if they have as many frames with equal callers and functions. |
| `ExecutionStates.ExecutionState.Merge` | klee/lib/Core/ExecutionState.cpp:159-320 | A merge happens exactly between states at the same place with the same objects; then inputs, registers and memory are those of both sides, told apart by A's suffix, and the place and the symbolic objects stay; otherwise nothing changes. |
| `ProcessTrees.TagMeaning` | klee/lib/Core/Searcher.cpp:257-263 | With every node consistent, a link carries a searcher's bit exactly when a path leads from it down to a leaf whose state the searcher owns. |
| `ProcessTrees.SetBit` | klee/lib/Core/Searcher.cpp:297-312 | Setting a missing bit moves the one inconsistency to the parent. |
| `ProcessTrees.ClearBit` | klee/lib/Core/Searcher.cpp:316-330 | Clearing a stale bit moves the one inconsistency to the parent, whose bit is set. |
| `ProcessTrees.AttachedConsistent` | klee/lib/Core/PTree.cpp:39-54 | Attaching keeps every node consistent: the right leaf inherits the tag. |
| `ProcessTrees.UnlinkedConsistent` | klee/lib/Core/PTree.cpp:57-69 | Removing a leaf without bits keeps every node consistent. |
| `ProcessTrees.CompressedConsistent` | klee/lib/Core/PTree.cpp:71-92 | Letting an only child take its parent's place keeps every node consistent. |
| `RandomPathSearchers.PTree.constructor` | klee/lib/Core/PTree.cpp:34-37 | One leaf, no bits. |
| `RandomPathSearchers.PTree.GetNextId` | klee/lib/Core/PTree.h:55-62 | Three searchers get a bit each, a fourth none. |
| `RandomPathSearchers.PTree.Attach` | klee/lib/Core/PTree.cpp:39-54 | The tree stays valid with one more state. |
| `RandomPathSearchers.PTree.Remove` | klee/lib/Core/PTree.cpp:56-93 | The tree stays valid with one state less, with and without compression, even when the last leaf goes. |
| `RandomPathSearchers.PTree.AddState` | klee/lib/Core/Searcher.cpp:294-313 | The searcher tracks one state more; every tag is right again. |
| `RandomPathSearchers.PTree.RemoveState` | klee/lib/Core/Searcher.cpp:315-331 | The searcher tracks one state less; every tag is right again, and the bit to be cleared is always set. |
| `RandomPathSearchers.PTree.TagsMean` | klee/lib/Core/Searcher.cpp:257-263 | In a valid tree a link carries a bit exactly when a leaf below is owned. |
| `RandomPathSearchers.PTree.Run` | klee/lib/Core/PTree.cpp:39-93 | Any interleaving of attaching, tracking, giving up and removing keeps the tree valid; the states in it and who tracks them are those of a plain ledger. |
| `RandomPathSearchers.RandomPathSearcher.SelectState` | klee/lib/Core/Searcher.cpp:265-289 | The walk goes from the root to children with the bit, to the left one of two exactly when the next random bit is set, never meets two children without it, and ends at a tracked state. |
| `RandomPathSearchers.RandomPathSearcher.Update` | klee/lib/Core/Searcher.cpp:291-332 | The searcher tracks what it did and the added states without the removed ones; other searchers are not touched. |
| `RandomPathSearchers.RandomPathSearcher.Empty` | klee/lib/Core/Searcher.cpp:334-336 | Empty exactly when nothing is tracked. |
| `ReturnDistances.MinDistToReturn` | klee/lib/Core/StatsTracker.cpp:860-949 | The iteration terminates; each entry is zero exactly when no call-balanced path reaches a return, and otherwise the least cost of one, and so for each function. |
| `ReturnDistances.Round` | klee/lib/Core/StatsTracker.cpp:894-949 | A round that changes something decreases the zeros or, at equal zeros, the total; one that changes nothing leaves every instruction settled. |
| `ReturnDistances.Relax` | klee/lib/Core/StatsTracker.cpp:896-947 | One instruction keeps every entry the cost of a path. |
| `ReturnDistances.BestThrough` | klee/lib/Core/StatsTracker.cpp:901-916 | The least cost of passing the instruction. |
| `ReturnDistances.SettledBound` | klee/lib/Core/StatsTracker.cpp:894-949 | In settled tables no path is cheaper than its entry. |
| `CallPaths.CallPathManager.ComputeCallPath` | klee/lib/Core/CallPathManager.cpp:61-72 | An ancestor with the key if there is one, else a new node; no key occurs twice on a chain. |
| `CallPaths.CallPathManager.GetCallPath` | klee/lib/Core/CallPathManager.cpp:74-89 | The node returned has the key and is the parent's child under it from then on, so that a repeated call finds it; no key occurs twice on a chain. |
| `CallPaths.CallPathManager.GetSummaryStatistics` | klee/lib/Core/CallPathManager.cpp:44-59 | Each summary is the total at or below a node; each table entry is the total of all nodes at or below a node with the key, each counted once. |
| `CallPaths.AppendNoRepeats` | klee/lib/Core/CallPathManager.cpp:61-72 | A node whose key its chain lacks keeps keys unique on every chain. |
| `CallPaths.KeyedStep` | klee/lib/Core/CallPathManager.cpp:51-58 | A node adds to its key's entry exactly what lies under it and was not counted yet. |
| `CallPaths.SummedStep` | klee/lib/Core/CallPathManager.cpp:51-53 | Passing a summary to the parent keeps all summaries those of the nodes done. |
| `CallGraphs.CallGraph.GetNode` | IDA/src/CallGraph.cpp:63-92 | One node per function, made on first use. |
| `CallGraphs.IsReachable` | IDA/src/CallGraph.cpp:190-217 | True exactly if a path of admitted edges over internal nodes leads from the source to the target; terminates though nodes are queued several times. |
| `CallGraphs.Shrinks` | IDA/src/CallGraph.cpp:195-214 | Every turn traces a node, brings the first untraced one nearer, or shortens the queue. |
| `SelectTables.FindRanges` | klee/lib/Expr/ArrayExprOptimizer.cpp:450-469 | The ranges cut the table, in order, into runs of equal elements as long as can be; of the distinct values only that of a last element that starts a run is not counted. |
| `SelectTables.Group` | klee/lib/Expr/ArrayExprOptimizer.cpp:476-488 | Every range is in the group of its value and nothing else is. |
| `SelectTables.RangeConditionSound` | klee/lib/Expr/ArrayExprOptimizer.cpp:499-534 | The condition of a range means the signed comparisons at the index width. |
| `SelectTables.BuildSelects` | klee/lib/Expr/ArrayExprOptimizer.cpp:492-566 | The nested selects pick the only matching value, and the smallest if none matches. |
| `SelectTables.BuildConstantSelectExpr` | klee/lib/Expr/ArrayExprOptimizer.cpp:432-571 | An expression is returned exactly if the share of distinct values counted is below the ratio. Where the low 32 bits of the index are non-negative and inside the table it gives the element if and only if that is the smallest value, stands alone, or ends its run below the negative indices. |
| `SelectTables.AllRepresentable` | klee/lib/Expr/ArrayExprOptimizer.cpp:432-571 | A table shorter than the non-negative indices is read right everywhere. |
| `SelectTables.RunMissed` | klee/lib/Expr/ArrayExprOptimizer.cpp:510-517 | For a table of a zero and 2^31 ones and any 32-bit index, an expression is built that does not evaluate to 1 where the index is 1. |
| `CgsSearchers.BranchPools.Execute` | klee/lib/Core/Executor.cpp:2456-2839 | What the pools hold after a branch or switch is executed, and which one a new branch joins; they stay free of duplicates and disjoint, and the targets within the limit. |
| `CgsSearchers.BranchPools.Cover` | klee/lib/Core/Executor.cpp:2843-2876 | A covered branch leaves the other pools and enters the last one; a waiting branch may become a target. |
| `CgsSearchers.CGSSearcher.SelectState` | klee/lib/Core/Searcher.cpp:574-584 | The first state of the branch queue, else of the common one; it is tracked. |
| `CgsSearchers.CGSSearcher.HandlePartlyCoveredBranch` | klee/lib/Core/Searcher.cpp:834-893 | The current state aims at the branch through each of its stores and joins the branch queue, and so do, in order, the states with a new value for a store; what stays in the common queue is unchanged, and no state is lost. |
| `CgsSearchers.CGSSearcher.HandleFullyCoveredBranch` | klee/lib/Core/Searcher.cpp:896-954 | Exactly the states of the branch queue forget the branch once and the stores no longer needed; those left without a target, except the current one, go in order to the back of the common queue. |
| `CgsSearchers.CGSSearcher.ReachStore` | klee/lib/Core/Searcher.cpp:677-712 | Of the infos the store added exactly those with a new value stay, the older ones all; with one of them the state joins the branch queue; the flag and the counter are cleared. |
| `CgsSearchers.CGSSearcher.ReachBranch` | klee/lib/Core/Searcher.cpp:611-675 | The first info about the branch goes, or the branch covered in full is dropped everywhere; without a target the state goes to the front or the back of the common queue; the flag is cleared. |
| `CgsSearchers.CGSSearcher.AddStates` | klee/lib/Core/Searcher.cpp:766-805 | The new states line up, in order, behind the queue their targets and stores call for; without a current state behind the common one. |
| `CgsSearchers.CGSSearcher.RemoveStates` | klee/lib/Core/Searcher.cpp:807-819 | Both queues without the removed states, in their order. |
| `CgsSearchers.CGSSearcher.Refresh` | klee/lib/Core/Searcher.cpp:724-761 | The states of the branch queue forget their targets and leave it unless they covered something new; the new targets are the last waiting branches, the last first, up to the limit, and the current state aims at each. |
| `CgsSearchers.CGSSearcher.UpdateCurrent` | klee/lib/Core/Searcher.cpp:592-721 | With states added the current one goes to the back of its queue; then a branch it reached, a store it passed and a new target are handled, in this order. |
| `CgsSearchers.CGSSearcher.Update` | klee/lib/Core/Searcher.cpp:587-820 | Queues, infos and pools afterwards, in full: the current state, a target refresh, the added and the removed states; the queues hold, each once, the states they held and the added ones without the removed ones. |
| `CgsSearchers.CGSSearcher.Disjoint` | klee/lib/Core/Searcher.cpp:574-820 | No state is in a queue twice or in both. |
| `CgsSearchers.CGSSearcher.Run` | klee/lib/Core/Searcher.cpp:587-820 | A run continues, step by step, as the updates and executed branches on values say; the queues hold each state once, the pools stay disjoint, and the states queued and the branches covered are those of a plain account of the steps. |
| `CgsQueues.QuietUpdate` | klee/lib/Core/Searcher.cpp:592-805 | Without an event the current state goes behind those of its queue, and behind it, in order, the new states with a target or a store ahead, or in the other queue those without. |
| `CgsQueues.CurrentMeans` | klee/lib/Core/Searcher.cpp:606-721 | Afterwards neither flag of the current state is set, a branch it reached is no longer aimed at, and with a new target it is in the branch queue. |
| `CgsQueues.RecruitedMeans` | klee/lib/Core/Searcher.cpp:861-893 | A state joins the branch queue exactly when it is not the current one and has a value for the store that is new, and then it aims at the branch; each candidate is asked for once, in order. |
| `CgsQueues.AimedKept` | klee/lib/Core/Searcher.cpp:834-893 | After a new target the current state is in the branch queue with an info for each store; states left in the common queue know nothing of it, and no state is lost. |
| `CgsQueues.BranchCoveredMeans` | klee/lib/Core/Searcher.cpp:924-953 | After a branch is covered the branch queue holds the current state and those with another target; the others' infos are as they were. |
| `CgsQueues.FirstGone` | klee/lib/Core/Searcher.cpp:936-944 | Exactly the first info about the branch goes. |
| `CgsQueues.StoreReachedMeans` | klee/lib/Core/Searcher.cpp:682-711 | An info from the store stays exactly when its question is answered with yes, and the older ones and other states stay as they were. |
| `CgsQueues.JoinedMeans` | klee/lib/Core/Searcher.cpp:766-805 | A new state joins the branch queue exactly when there is a current state and it has a target or a store ahead. |
| `CgsQueues.ChosenAt` | klee/lib/Core/Searcher.cpp:742-757 | The targets are the waiting branches from the last on. |
| `CgsQueues.UpdatedConserves` | klee/lib/Core/Searcher.cpp:587-820 | An update on values loses no state and doubles none. |

## Left out

- Divisors: the code checks a divisor before it divides; here a zero divisor gives the dividend as quotient and zero as remainder, so that every constructor has a value to agree with.
- Arrays: two arrays are the same if name, size, widths and constant contents are; the fresh names of temporary and constant arrays are parameters or a fixed name.
- Assertions: where the original stops at an assertion or a fatal error, the model returns a flag or has the asserted fact as a proved assertion; the contracts say when it cannot happen.
- Containers: buffers, masks and lists are sequences and maps held in fields; iteration over ordered sets and maps of pointers is iteration in some order, and process-tree nodes are entries of a table instead of heap cells.
- Widths of counters: sizes and distances are unbounded, so the 32-bit distances of the tracker, the copy-on-write epoch and statistics counters do not overflow; one counter stands for a statistics record.
- Executors.Executor.Fork: no seeds, no replay, no depth limit and branching always permitted; the static fork limits are at their default, where they change nothing.
- Executors.Executor.Merge: whether two states agree in all but their constraints is a parameter there; `ExecutionStates.ExecutionState.Merge` decides it and merges registers and memory.
- MemoryForests.Forest.Run: a write to a read-only object is refused, where the executor ends the state; the bytes of an object after a write of the same space that leaves it, which the executor's bounds check excludes on that state's inputs, are not described.
- ObjectStates: concretisation through the solver, writing back to host memory and random initialisation.
- Resolution.Resolve: queries do not fail; lateness is a parameter.
- CgsSearchers.CGSSearcher.Update: the verdicts on new store values, the stores of a branch and the blocks with stores are an oracle; the predicate tables behind them are not modelled. A target refresh with no current state, and a store counter beyond the state's list, which the code does not handle, are excluded.
- CgsSearchers.BranchPools.Execute: whether a branch may become a target (its stores, its reach count) is a parameter, and coverage once reached stays.
- ReturnDistances: the distance to uncovered code, which is computed from the one modelled.
- SelectTables.BuildConstantSelectExpr: tables longer than the index width can address.
- Instruction execution apart from branches and switches, external calls, floating point, varargs and unwinding.
- Real solvers, query caching and time-outs other than as an outcome of a fork.
- The expression builders, printers and parsers, the assignment generator, the array rewriter and the mixed select builder.
- The other searchers: weighted, interleaved and time-based.
- The rest of the dependency analysis: data dependencies, store selection and its metadata.
