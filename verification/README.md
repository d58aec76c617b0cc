# CARMIX: verified models of the hashing, gate, store and migration cores

CARMIX moves content-addressed computation state between machines under a capability gate.
This project models its cores in Dafny and proves what they promise for every input, every
run or every interleaving. `dafny verify dfyconfig.toml` checks all of it.

* **BLAKE3** (`Blake3Spec`, `Blake3Chunk`, `Blake3Subtree`, `Blake3Stack`, `Blake3Hasher`,
  `Blake3Binding`). The specification is the left-balanced chunk tree of section 2.1 of the BLAKE3
  specification, with `compress` a parameter. The incremental hasher, with its lazy merging,
  popcount rule, subtree alignment and SIMD-width-dependent recursion, computes that tree for every
  way of cutting a message into updates. The stack invariant is `Hasher.Valid`. The tree itself
  binds key, mode, position and message: two of them with one root show a collision of `compress`.
* **WebAssembly gate** (`GateIr`, `GateChecker`, `GateComplete`, `GateExecutor`, `GateCompile`,
  `GatePrograms`, `GateOptimizer`, `GateElision`, `GateFrontend`, `GateWasm`). A run is "the state
  after n steps", with an access out of range (operands, locals, raw memory) an outcome of its own
  (`Wild`). Compiled expressions and programs run to their values, the checker passes exactly what
  the machine cannot fail on at the linear depths, checked modules whose joins agree never go wild,
  bounds-check elision preserves every run and is characterized exactly, and lowering inverts
  assembly and yields code that stops.
* **Content-addressed state** (`ObjectStore`, `Sls`, `SlsDiff`, `EpochTree`, `EpochBinding`). The
  hash function is a parameter. The object graph is acyclic because children are stored before
  parents, the memoised diff reports exactly where two graphs part, and an epoch commit returns the
  Merkle root of the memory, which binds it, at a cost given by the chunks touched.
* **Two-machine protocol** (`PullSync`, `PullForever`, `PullHonest`, `PullTogether`, `PullTight`,
  `SeqChannel`, `KeyChannel`, `TrustStore`, `TrustLimits`, `AuthSet`, `Wire`). The peer of the pull
  synchronization is an arbitrary function from the requests so far to a response or silence;
  `PullTogether` puts the serving side in its place, and `SeqChannel` shows that over shared memory
  a response is the whole answer to the latest request. The key lifecycle is proved over all
  sequences of records and attempts, with opening a signature a parameter.
* **Software re-mint gate and field arithmetic** (`SwCap`, `Field25519`, `FieldPack`, `Modular`).
  Re-mint never amplifies, over any chain of hops; multiplication, inversion and packing modulo
  2^255 - 19 (the field of section 5.1 of RFC 8032) are right with explicit 64-bit bounds.

Machine integers are unbounded integers with wrap-around written out where the sources rely on
it; limbs of the field are held in a 64-bit subset type at every intermediate value. State that
the sources update in place is a class with the same fields, and its methods are proved against a
transition on values, about which the laws are then stated.

Properties that fail in the code, each with the exact condition under which they hold and an input
on which they fail:

* The checker accepts modules whose joins disagree (`JoinsAreNeeded`). Its depth is that of every
  step exactly if the joins a step can take agree (`TypingIffJoins`).
* Bounds-check elision is wrong for an indirect call that lands behind a constant the pass believes
  in (`IndirectCallsBreakElision`). Its beliefs are kept exactly if no landing believes more than the
  call leaves (`BeliefIffCovered`); branch targets as table entries are enough (`TargetsSuffice`).
* `b_sync` ignores the result of `store_put` and reports completion either way: what it reached is
  stored exactly if there was room (`CompleteIffRoom`, `FullSinkReportsDone`).
* `b_sync` need not end: it ends with every peer exactly if the store cannot be filled so far that a
  new block is refused (`EndsIff`; `FullStoreIff` for a store without a free slot). Otherwise a peer
  that names a refused block as its own child keeps it going for ever (`RefusedForever`), as with one
  leaf and no slot (`LeafForever`).
* The 4096-entry stack drops children without a word: up to height 273 none (`HonestSync`), at height
  274 completion is reported for a graph that is not there (`HeightIsTight`).
* `a_serve` trusts the child count of a node: it reads inside the object exactly if the hints fit its
  length (`ServableIff`), as they do in what the writers produce (`HintsAreKids`).
* Pruning at resident objects hides what is missing below them (`ResidentRootHidesAll`); it finds
  everything, for every root, exactly if B holds the children of what it shares with A (`PruneIff`).
* The "differs from the last value" channel deadlocks exactly if the destination samples the counter
  after the announcement, which is when the first three turns are all the source's (`DeadlockIff`,
  `LateSampleHalts`).
* From the 65th nonce on replays are accepted (`ReplayIff`, `ReplayHappens`), and from the 17th
  revocation on revoking has no effect (`RevokeIff`, `RevocationLost`).
* The anti-amplification backstop is described as a cap on the ceiling (`kernel/nettest.c:583-585`),
  but grants a ceiling exactly if it equals 256: the region must be exactly the object
  (`AntiampExact`). The per-member variant is a cap (`SetMemberBounded`).
* A migrated authority set is meant to arrive as signed (`kernel/nettest.c:523-525`), but rights and
  hash of the members are ignored: a member stays within what was signed exactly if its rights
  include load, store and global and its hash is the served root (`ArrivesWithinSignedIff`,
  `ReadOnlyArrivesWritable`, `OtherObjectArrives`).
* Lowering cuts local indices to 16 bits without rejecting them: it inverts assembly exactly if all
  are below 65536 (`LoweringInvertsIff`, `BigLocalIsCut`).
* Set packing is canonical exactly if no hash occurs with two different rights or lengths
  (`CanonicalIff`).
* An epoch is called fail-closed on memories beyond its capacity (`store/epoch_tree.c:9`), but its
  32-bit chunk count wraps: such a memory is accepted exactly if the count is at most 256 modulo
  2^32 (`AcceptsWronglyIff`, `AcceptsSixteenTerabytes`), and init does not return exactly if the
  count exceeds 2^31 (`DoublingLoopsIff`).

Hypotheses that the sources force and that the statements carry: BLAKE3 input below 2^64 bytes;
gate memory freshly bound, with the module's `mem_size`; no collisions between the contents that
are compared; for the honest synchronization, objects as the leaf and node writers produce them
and a rank that decreases from parent to child (the height, at most 273 at the root); a root
capability that does not wrap around the address space for `SameBytes`.

## Model

| member | source | states |
|---|---|---|
| Bits.RoundDownPow2 | store/blake3/blake3_impl.h:145-149 | the result is a power of two with r <= x < 2r (1 for 0) |
| Bits.MaskIsMod | store/blake3/blake3.c:542-544 | masking the byte count with a power of two minus one is the remainder, so the halving loop tests divisibility |
| Bits.PopcountBound | store/blake3/blake3_impl.h:132-143 | a number below 2^k has at most k one bits |
| Blake3Spec.LeftLen | store/blake3/blake3.c:159-167 | the left part is a power of two of whole chunks, leaves at least one byte to the right, and the right is no longer than it |
| Blake3Spec.SplitAt | store/blake3/blake3.c:282-290 | any aligned power-of-two split with a non-empty right part no longer than the left is the split of the specification tree |
| Blake3Chunk.ChunkState.Update | store/blake3/blake3.c:119-145 | whatever the pieces, the chunk state holds exactly the bytes fed so far, last block uncompressed |
| Blake3Chunk.ChunkState.Finish | store/blake3/blake3.c:147-152 | the output is the chunk output of section 2.4 of the BLAKE3 specification over all bytes fed |
| Blake3Chunk.HashWholeChunk | store/blake3/blake3.c:191-193 | one lane of the many-input hash over a whole chunk gives the chunk's chaining value |
| Blake3Chunk.HashPartialChunk | store/blake3/blake3.c:197-206 | so does the chunk state for a last, partial chunk |
| Blake3Subtree.PairsRoot | store/blake3/blake3.c:212-250 | one layer of parents with the odd value carried over keeps both children of the left-balanced root, for lists of more than two values |
| Blake3Subtree.LeavesRoot | store/blake3/blake3.c:169-210 | the left-balanced tree over the chunk chaining values is the specification tree, cut by bytes |
| Blake3Subtree.JoinTreeRoot | store/blake3/blake3.c:282-336 | value lists for the two halves, side by side, stand for the whole tree |
| Blake3Subtree.CompressChunksParallel | store/blake3/blake3.c:173-210 | writes the chaining values of all chunks, the last one possibly partial, and nothing before its slot |
| Blake3Subtree.CompressParentsParallel | store/blake3/blake3.c:217-250 | writes one layer of parents, an odd value carried over |
| Blake3Subtree.CompressSubtreeWide | store/blake3/blake3.c:269-337 | for every SIMD degree 1, 2, 4, 8, 16 the returned list stands for the specification tree of the input, has at most max(degree, 2) values, and exactly that many for a full subtree |
| Blake3Subtree.Condense | store/blake3/blake3.c:374-378 | repeated pairing down to two values keeps the children of the root |
| Blake3Subtree.CompressSubtreeToParentNode | store/blake3/blake3.c:349-381 | for every degree the two results are the two child chaining values of the specification tree |
| Blake3Stack.Regroup | store/blake3/blake3.c:415-424 | the binary decomposition of the chunks is the same whichever power-of-two unit it is counted in |
| Blake3Stack.SubCvMerge | store/blake3/blake3.c:428-432 | two neighbouring subtrees of one power-of-two size merge into the tree over both |
| Blake3Stack.LazyEven | store/blake3/blake3.c:455-460 | a lazy stack over an even number of merged units is already the decomposition |
| Blake3Stack.LazyOdd | store/blake3/blake3.c:427-433 | over an odd number, one merge gives the lazy stack of the doubled unit |
| Blake3Stack.MergeCase | store/blake3/blake3.c:426-427 | the popcount test of the merge loop is true exactly when a merge is due |
| Blake3Stack.RollUpIsTree | store/blake3/blake3.c:638-644 | folding the decomposition onto the tree of the remaining bytes gives the tree of the whole message |
| Blake3Stack.LazyRollUp | store/blake3/blake3.c:632-637 | the same from an unmerged pair on top, when the message ends on a chunk boundary |
| Blake3Hasher.Hasher.constructor | store/blake3/blake3.c:383-388 | a fresh hasher stands for the empty message |
| Blake3Hasher.Hasher.MergeCvStack | store/blake3/blake3.c:425-434 | the lazy stack becomes the decomposition with popcount(n) entries |
| Blake3Hasher.Hasher.PushCv | store/blake3/blake3.c:468-474 | the stack becomes the decomposition of the units so far with the new subtree unmerged on top, within its 55 slots |
| Blake3Hasher.SubtreeLen | store/blake3/blake3.c:525-547 | the subtree taken is the largest power of two of bytes that fits the input and divides the bytes so far, and whole chunks; a single chunk is taken only if more input follows |
| Blake3Hasher.Hasher.AbsorbSubtree | store/blake3/blake3.c:524-571 | one round of the subtree loop keeps the stack a lazy decomposition and leaves an unmerged pair if it used up the input |
| Blake3Hasher.Hasher.Update | store/blake3/blake3.c:476-583 | for every input the hasher stands for the old message followed by it; merged stack with bytes in the chunk state, one unmerged pair without (the class invariant) |
| Blake3Hasher.StackFits | store/blake3/blake3.h:55-60 | below 2^64 bytes the merged stack has at most 54 entries, so one push more fits 55 |
| Blake3Hasher.RootOutput | store/blake3/blake3.c:90-117 | output bytes from any offset are the XOF bytes of the root node, across partial first and last blocks |
| Blake3Hasher.Hasher.FinalOutput | store/blake3/blake3.c:613-645 | the node finalized as root is the root of the specification tree of the whole message |
| Blake3Hasher.Hasher.Finalize | store/blake3/blake3.c:604-646 | the bytes are those of the specification hash of the message, for every seek and length, and the hasher is unchanged |
| Blake3Hasher.HashPieces | store/blake3/blake3.c:476-646 | for every cut of a message into updates and every SIMD degree the result is the hash of the concatenation |
| Blake3Binding.TreeBinds | store/blake3/blake3.c:63-157 | the root node determines key, mode, counter and message, whatever the lengths; otherwise two different inputs compressed below the two roots have the same chaining value |
| Blake3Binding.HashBinds | store/blake3/blake3.c:604-646 | equal hash bytes: the same key, mode and message, or a collision at the root or below it |
| Blake3Binding.NoRootBelow | store/blake3/blake3.c:82-89 | nothing that is compressed below the root carries the root flag |
| Blake3Binding.RootIsApart | store/blake3/blake3.c:90-117 | the hash depends on the compression function only without the root flag and on the extendable one only with it |
| Blake3Binding.OutputBlock | store/blake3/blake3.c:90-117 | output block k is one extendable compression of the root node with counter k |
| Blake3Binding.HalvesApart | store/blake3/blake3.c:154-157 | the first 32 bytes of a root block depend on the left part of the message only, the last 32 on the right part only |
| Blake3Binding.ChunksInPlace | store/blake3/blake3.c:173-210 | chunk k of a longer message is compressed with counter k, as a chunk |
| GateIr.WriteThenRead | carmix/backend_sw_gate.c:29-41 | a stored word is read back whole and no other byte changes |
| GateIr.WordIsExactIff | gate/executor.c:41-43 | the word an addition, subtraction or multiplication leaves is the exact int32_t result exactly when that result fits, which is when C defines the operation |
| Bits.AndByBits | gate/executor.c:44-44 | the and of two words has bit i exactly if both have it |
| Bits.OrByBits | gate/executor.c:45-45 | the or of two words has bit i exactly if one of them has it |
| Bits.XorByBits | gate/executor.c:46-46 | the exclusive or of two words has bit i exactly if just one of them has it |
| GateCompile.BinaryIsApply | gate/executor.c:41-49 | the nine operations on numbers: sums, differences and products modulo 2^32, bits, products and quotients by 2^(y mod 32), comparison |
| GateCompile.ReadIsFetched | carmix/backend_sw_gate.c:24-28 | a load yields the little-endian number of its four bytes |
| GateCompile.ExprRuns | gate/executor.c:30-87 | running the postfix code of any expression, from any state with room, pushes exactly its value and leaves stack, locals and memory alone; the fault flag is set exactly if an access misses the memory |
| GateCompile.ExprOverflows | gate/executor.c:35-35 | without that room the run ends in a stack rejection |
| GatePrograms.WriteIsPut | carmix/backend_sw_gate.c:29-33 | a store leaves the four little-endian bytes of the number and every other byte as it was |
| GatePrograms.StepSigned | gate/executor.c:41-43 | the signed top afterwards is second plus, minus or times top, where that fits |
| GatePrograms.StepCall | gate/executor.c:78-83 | an indirect call goes on at the table entry its operand selects, or traps |
| GatePrograms.StmtRuns | gate/executor.c:30-87 | the code of any structured program (assignment, store, drop, sequence, conditional, loop) runs to its end with the program's meaning, wherever it has one |
| GatePrograms.WholeRuns | gate/executor.c:16-90 | a program that ends in an expression returns the value of the expression in the program's final state, with its memory and fault flag |
| GateExecutor.Backend.Load32 | carmix/backend_sw_gate.c:22-28 | in bounds the little-endian word, otherwise 0 and a sticky fault |
| GateExecutor.Backend.Store32 | carmix/backend_sw_gate.c:29-33 | in bounds the word is written, otherwise memory is unchanged and the fault sticks |
| GateExecutor.Backend.Load32Raw | carmix/backend_sw_gate.c:34-37 | inside the memory the unchecked load is the checked one |
| GateExecutor.Backend.Store32Raw | carmix/backend_sw_gate.c:38-41 | inside the memory the unchecked store is the checked one |
| GateChecker.Check | gate/sfi_checker.c:15-79 | accepts exactly the modules whose table targets are in range and whose every instruction passes at its linear depth; otherwise reports the verdict of the first that does not |
| GateChecker.CheckInst | gate/sfi_checker.c:30-76 | the verdict on one instruction, checks in order, with the depth ceiling of 512 |
| GateComplete.PassesIff | gate/sfi_checker.c:30-76 | an instruction passes at depth d exactly if it is permitted (no raw access, slot 0, target and table there), the machine can fail on it from no state with d operands, and it leaves at most 512 |
| GateComplete.DepthFollows | gate/sfi_checker.c:25-78 | where the machine goes on, the linear depth changes as its stack does |
| GateComplete.AcceptedIff | gate/sfi_checker.c:15-79 | a module is accepted exactly if its table targets are in range and every instruction is, at its linear depth, permitted and one the machine cannot fail on |
| GateComplete.RefusalMeans | gate/sfi_checker.c:30-76 | which reason is reported for which instruction |
| GateChecker.StepTyped | gate/executor.c:29-87 | a step from a state at the checker's depth leads to another such state or stops, with operands, locals and pc in range |
| GateChecker.CheckedRunsAreSafe | gate/sfi_checker.c:25-78 | every reachable state of an accepted module whose joins agree has the checker's depth at its pc, with operands, locals and pc in range |
| GateChecker.TypingIffJoins | gate/sfi_checker.c:25-78 | for every accepted module: every step keeps the checker's depth exactly when the depths agree along every branch and table entry that a step can take (below depth 512, with a matching table type) |
| GateChecker.JoinsAreNeeded | gate/sfi_checker.c:26-27 | an accepted module whose joins disagree that does go wrong |
| GateExecutor.Machine.StepInPlace | gate/executor.c:30-87 | one round of the interpreter on the real arrays is one step of the machine's meaning |
| GateExecutor.Exec | gate/executor.c:16-90 | after any number of rounds status, result, memory and fault are those of the run of that many steps; more than 64 locals are refused |
| GateOptimizer.MarkTargets | gate/optimize.c:32-37 | exactly the in-range targets of BR and BR_IF are marked |
| GateOptimizer.AbsDepth | gate/optimize.c:39-73 | on an accepted module the abstract stack has the checker's depth, so no push is dropped |
| GateOptimizer.StepBelieved | gate/optimize.c:41-73 | if every slot believed constant holds that constant, so it does after any step, branches included |
| GateOptimizer.BeliefIffCovered | gate/optimize.c:32-73 | for every accepted module: what the pass believes is kept by every step exactly when, wherever an indirect call can land, it believes no more than right after the call |
| GateOptimizer.TargetsSuffice | gate/optimize.c:34-37 | it is enough that every table entry is a branch target, or that there is no table |
| GateOptimizer.SameStep | gate/optimize.c:52-69 | in such a state the rewritten instruction does what the original does |
| GateOptimizer.ElisionPreservesRuns | gate/optimize.c:22-76 | for every accepted module whose indirect calls are covered, every memory, arguments and step count, the optimized module is in the same state |
| GateOptimizer.ElidedAccessesInside | gate/optimize.c:52-66 | every RAW access a run executes satisfies address + offset + 4 <= mem_size, without wrap-around |
| GateOptimizer.IndirectCallsBreakElision | gate/optimize.c:34-37 | the condition is needed: an accepted module whose indirect call lands behind a constant reads out of bounds once optimized |
| GateElision.KnownIff | gate/optimize.c:39-73 | the pass knows an operand exactly if a constant pushed it, no instruction in between takes it and no branch lands in between |
| GateElision.ElidedIff | gate/optimize.c:52-66 | an access is rewritten exactly if its address is such a constant and constant + offset + 4 <= mem_size |
| GateOptimizer.Optimize | gate/optimize.c:22-76 | the rewritten array is the elided module, a plain copy above 4096 instructions, and the count is that of the rewritten accesses |
| GateFrontend.UnsignedRoundTrip | gate/wasm_frontend.c:23-27 | the unsigned LEB128 encoding of a number reads back as that number, whatever follows |
| GateFrontend.SignedRoundTrip | gate/wasm_frontend.c:28-34 | the same for signed LEB128 |
| GateFrontend.Reader.ReadByte | gate/wasm_frontend.c:22-22 | the next byte, or the error flag at the end |
| GateFrontend.Reader.OrShifted | gate/wasm_frontend.c:26-31 | the bits below a group are free, so the or of the shifted group adds it, modulo 2^32 |
| Bits.OrIsPlus | gate/wasm_frontend.c:26-31 | or of numbers with disjoint bits is their sum |
| GateFrontend.Reader.ReadU32 | gate/wasm_frontend.c:23-27 | at most five groups, their value modulo 2^32; otherwise the error flag |
| GateFrontend.Reader.ReadS32 | gate/wasm_frontend.c:28-34 | the two's complement of the signed value; an unterminated number sets the error flag |
| GateFrontend.LowerOne | gate/wasm_frontend.c:46-74 | emits exactly the instruction that the next bytes encode, or rejects |
| GateFrontend.LowerExpr | gate/wasm_frontend.c:40-77 | succeeds exactly on an encoded body that fits the output, and then writes exactly its instructions |
| GateFrontend.LoweredAsEmitted | gate/wasm_frontend.c:43-75 | every straight-line body of the subset, assembled with the opcodes of the WebAssembly specification, is lowered to itself with its local indices cut to 16 bits, whatever follows it |
| GateFrontend.LoweringInvertsIff | gate/wasm_frontend.c:43-75 | lowering gives back exactly what was assembled if and only if every local index is below 65536 |
| GateFrontend.BigLocalIsCut | gate/wasm_frontend.c:43-51 | a function with 65537 locals whose read of the last one is lowered to a read of the first |
| GateWasm.ExprLowers | gate/wasm_frontend.c:40-77 | an expression in the opcodes of the WebAssembly specification is lowered to its postfix code |
| GateWasm.BytesToValue | gate/wasm_frontend.c:40-77 | lowered and run, the WebAssembly bytes of an expression yield its value |
| GateFrontend.DecodedIsStraight | gate/wasm_frontend.c:45-75 | lowered code is straight-line, ends in END, and has locals and memory slots in range |
| GateFrontend.StraightPrefix | gate/executor.c:30-87 | checked straight-line code advances one instruction a step while its depth stays below 512, and is refused where it does not |
| GateFrontend.LoweredCodeStops | gate/wasm_frontend.c:72-72 | checked lowered code stops within its length, with OK exactly when the depth stays below 512 up to its exit |
| ObjectStore.HashEq | store/object_store.c:15-20 | true exactly for equal hashes |
| ObjectStore.Store.FindEntry | store/object_store.c:33-41 | the position of the object with the hash, or proof that there is none |
| ObjectStore.Store.Put | store/object_store.c:43-76 | a resident hash is a dedup hit and changes nothing; a new object is appended exactly if slot and bytes fit; the hash is given out only for a resident object; entries keep tiling the arena and the counters balance |
| ObjectStore.Store.Get | store/object_store.c:78-87 | the stored bytes for a resident hash, a miss otherwise |
| ObjectStore.Store.Exists | store/object_store.c:89-92 | true exactly for resident hashes |
| ObjectStore.FlattenSlice | store/object_store.c:63-72 | each entry's slice of the arena is its object |
| ObjectStore.IndexInv | store/object_store.c:67-71 | every resident address is the hash of the object it leads to |
| Sls.NodeRoundTrip | sls/sls.c:53-62 | a serialized node is well formed and reads back as its children |
| Sls.IndexGrows | store/object_store.c:7-11 | what is resident stays resident and unchanged as the store grows |
| Sls.OrderedAppend | sls/sls.c:59-65 | appending an object over resident children keeps every child at a smaller position than its parent |
| Sls.Acyclic | sls/sls.c:173-173 | no path of the object graph returns to where it began |
| Sls.PutLeaf | sls/sls.c:35-47 | the tagged leaf is resident under its hash, or the store is unchanged for a stated reason |
| Sls.PutNode | sls/sls.c:49-66 | the node is resident and, without a collision, has exactly the given children; order kept over resident children |
| Sls.BuildRun | docs/PROOFS.md:43-50 | over every run of constructions the order that makes the graph acyclic is kept and every object once stored is returned unchanged |
| SlsDiff.DiffCtx.RecChange | sls/sls.c:101-106 | the output stays a set; a new element is added or the capacity error set |
| SlsDiff.DiffCtx.SeenOrAdd | sls/sls.c:109-115 | skips exactly memoised pairs; adds a pair only while fewer than 512 are held, and a full memo is an error |
| SlsDiff.DiffCtx.LookUp | sls/sls.c:126-149 | resolves both objects, the second only if the first is there, and classifies the pair |
| SlsDiff.DiffCtx.DiffRec | sls/sls.c:117-150 | memo and output stay duplicate-free and within 512 and cap; what is added to them is exactly what the descent below the pair adds, with exact counters, or the error has a cause below the pair and the counters are bounded |
| SlsDiff.DiffIsDescent | sls/sls.c:122-124 | a completed memo is the set of pairs the descent without a memo visits, and the output what that descent reports |
| SlsDiff.DiffIsPrecise | sls/sls.c:117-150 | in terms of the two graphs: the output holds exactly the objects x of B for which some path, through nodes with equal numbers of children all the way, leads to a different object of A and to x, not both nodes with equal numbers of children |
| SlsDiff.OtherArityHidesLeaves | sls/sls.c:139-145 | that condition on the way is needed: nodes with one and two children, different leaves at position 0, and only the root of B is reported |
| SlsDiff.Diff | sls/sls.c:152-166 | always: duplicate-free output of at most cap, memo of at most 512, gets = 2 * memoised pairs (one less only on a miss), cmps <= 1 + arities of the descended pairs; on OK: the output is exactly where the two graphs part, the memo exactly the different pairs at the same place, and cmps is exactly that; on error: such a pair with a missing or malformed object, a full table, or such a pair 32 levels down |
| SlsDiff.TransferSuffices | sls/sls.c:139-149 | in terms of the two graphs: every leaf below root B is below root A or below something reported |
| SlsDiff.LeavesAreCovered | sls/sls.c:139-149 | every leaf below root B is below root A or below something reported |
| EpochTree.NextPow2 | store/epoch_tree.c:13-17 | where it returns: the least power of two not below x, the first in the sequence of 32-bit doublings |
| EpochTree.DoublingLoopsIff | store/epoch_tree.c:13-17 | the 32-bit doubling goes on for ever exactly for counts above 2^31 |
| EpochTree.CountExact | store/epoch_tree.c:26-27 | the 32-bit chunk count is the true one exactly below 2^32 chunks |
| EpochTree.AcceptsWronglyIff | store/epoch_tree.c:9-33 | over all 64-bit lengths: a memory of more than 256 chunks is accepted exactly if its chunk count is at least 2^32 and at most 256 modulo 2^32; then the chunks counted do not cover it |
| EpochTree.AcceptsSixteenTerabytes | store/epoch_tree.c:26-29 | 2^44 bytes are accepted as one chunk |
| EpochTree.BeyondIsInvisible | store/epoch_tree.c:65-76 | no node depends on bytes beyond the chunks counted |
| EpochTree.Epoch.constructor | store/epoch_tree.c:19-42 | for every 64-bit length on which init returns: valid exactly if the 32-bit chunk count is at most 256; then all chunks are dirty and nothing is committed |
| EpochTree.Epoch.Write | store/epoch_tree.c:45-55 | writes the bytes and marks exactly the chunks some byte of them lies in, or does nothing out of range; clean leaves still hash their chunks |
| EpochTree.WrittenBytes | store/epoch_tree.c:45-50 | byte by byte what a write does |
| EpochTree.TouchesIff | store/epoch_tree.c:51-54 | a write touches exactly the chunks of the bytes it covers |
| EpochTree.Epoch.RehashLeaves | store/epoch_tree.c:65-76 | exactly the dirty leaves are rehashed and counted |
| EpochTree.Epoch.RecomputeInner | store/epoch_tree.c:85-99 | the tree becomes that of a full recompute and the count is that of the inner nodes above a changed leaf |
| EpochTree.NodesAtMost | store/epoch_tree.c:85-99 | inner nodes above changed leaves are at most changed leaves times the height |
| EpochTree.Epoch.Commit | store/epoch_tree.c:57-105 | every node equals that of a full recompute of the current memory; leaf hashes = dirty chunks; after the first commit node hashes = inner nodes above them, at most dirty chunks * log2(n_leaves) |
| EpochTree.Epoch.RunEpoch | store/epoch_tree.c:44-105 | over any list of writes between two commits: the tree of the written memory, and leaf hashes = number of chunks some write touched |
| EpochBinding.RootIsMerkle | store/epoch_tree.c:57-105 | the root is the Merkle root of the memory in pieces of 4096 bytes, in order, padded with empty ones, each tagged as leaf and each pair as node |
| EpochBinding.CommitMerkle | store/epoch_tree.c:57-105 | a commit returns that Merkle root |
| EpochBinding.RootBindsMemory | store/epoch_tree.c:65-99 | equal roots: equal memories, of whatever lengths up to 256 chunks, or different inputs with one hash at the same node of the two trees |
| EpochBinding.CommitBoth | store/epoch_tree.c:57-105 | two commits with the same root have the same memory, or show such a collision |
| EpochBinding.RootTracksMemory | store/epoch_tree.c:44-105 | after any list of writes the root is the one before if the memory is, and only then, short of a collision |
| PullSync.RoundSafe | kernel/nettest.c:406-436 | whatever is answered, one turn installs nothing but an object that hashes to the address just requested, and keeps what was stored |
| PullSync.RunSafe | kernel/nettest.c:404-436 | over every run and every peer: old objects unchanged, new ones were requested under their own hash, stack within 4096, turns + stack height <= 1 + 16 * accepted blocks |
| PullSync.GoesOnIff | kernel/nettest.c:406-424 | a turn leaves the walk running exactly if its address was resident or was answered with a block of 1 to 1040 bytes, forged or not |
| PullSync.TurnsAddUp | kernel/nettest.c:406-436 | over every run the turns are the pruned, accepted and rejected ones, and the requests the accepted and rejected |
| PullSync.WalkEnds | kernel/nettest.c:406-436 | under arbitrary hints the walk is over within 2 + 16 * (free slots) turns unless the store refused a block |
| PullSync.PushExact | kernel/nettest.c:432-435 | the stack becomes the old one and the absent children in order, cut at 4096 entries: a child is dropped exactly if they are more |
| PullSync.Puller.PushChildren | kernel/nettest.c:432-435 | pushes exactly the hinted children that are not resident, as far as the stack goes |
| PullSync.Puller.AcceptBlock | kernel/nettest.c:415-435 | op, length and hash checks, then install, count and push |
| PullSync.Puller.Turn | kernel/nettest.c:406-436 | one turn on the real store and stack is one turn of the walk |
| PullSync.Puller.BSync | kernel/nettest.c:393-440 | for every peer with which the walk ends at all, the whole synchronization is a run of the walk, from advertisement to its end, and returns |
| PullForever.RefusedForever | kernel/nettest.c:430-435 | a block that is refused, answered with its own address as hint: the walk asks for it again for ever, from any state |
| PullForever.EndsIff | kernel/nettest.c:404-440 | the walk ends with every peer exactly if the store cannot be filled, block after block, so far that a new block of 1 to 1040 bytes is refused |
| PullForever.FullStoreIff | kernel/nettest.c:404-440 | with no free slot: the walk is over after two turns with every peer exactly if every block of 1 to 1040 bytes hashes to a resident address |
| PullForever.LeafForever | kernel/nettest.c:430-435 | no slot and a peer that answers one leaf with the leaf as its own child: still running after every number of turns |
| PullHonest.ServableIff | kernel/nettest.c:356-362 | all hint bytes are read from inside the object, and the object fits its area, exactly if it has at most 4096 bytes and its count of children, capped at 16, fits its length |
| PullHonest.Source.Serve | kernel/nettest.c:345-382 | for such objects: the response is the whole object with its first children as hints over the older areas, or an empty record |
| PullHonest.Source.AServe | kernel/nettest.c:334-384 | advertisement, then for each request the response after it, and bytes sent = total size of the objects requested |
| PullHonest.TurnOnTrack | kernel/nettest.c:406-436 | against an honest source every turn keeps: children of fetched objects are resident or stacked, no request twice, entry i of the stack at rank distance at least i/15 below the root |
| PullHonest.HonestSync | kernel/nettest.c:386-440 | with room, collision-free contents and height at most 273: stack at most 1 + 15 * height, nothing rejected or dropped, the walk ends (273 is tight, see `HeightIsTight`), B then holds its old store plus exactly what can be reached through missing objects, each requested once, bytes received = their total size |
| PullHonest.ClosedMeansAll | kernel/nettest.c:408-409 | if B holds the children of what it shares with A, what can be reached through missing objects is everything missing below the root |
| PullHonest.ResidentRootHidesAll | kernel/nettest.c:409-409 | not so otherwise: if the root is resident nothing is fetched, whatever is missing below it |
| PullHonest.PruneIff | kernel/nettest.c:408-409 | pruning at resident objects finds everything missing, for every root, exactly if B holds the children in A of every object both hold |
| PullHonest.OrderedIsClosed | sls/sls.c:49-66 | stores built by putting nodes over resident children are child-closed |
| PullHonest.CompleteIsClosure | kernel/nettest.c:386-440 | for such a store the result is the old store plus the closure of the root |
| PullHonest.BuiltStoreComplete | kernel/nettest.c:386-440 | a complete synchronization of a store that was itself built by putting nodes over resident children gives that store plus the closure of the root |
| PullHonest.PullFromHonest | kernel/nettest.c:393-440 | the same for the running method: finished; old store plus closure if closed; requests exactly the missing objects, each once; bytes received = bytes of the requests = their total size |
| PullTogether.SourceIsHonest | kernel/nettest.c:334-384 | the responses of the serving side are those of an honest peer |
| PullTogether.PullFromSource | kernel/nettest.c:334-440 | both sides run: the sink reads exactly the responses of the source to its requests, and bytes sent = bytes received = total size of the missing objects |
| PullTogether.AlwaysDone | kernel/nettest.c:406-440 | against an honest source the walk ends as done, whatever the height of the graph and the size of the store |
| PullTogether.CompleteIffRoom | kernel/nettest.c:430-430 | the put result is ignored: the walk ends as done either way, and what it reached is stored exactly if there was room for it |
| PullTogether.FullSinkReportsDone | kernel/nettest.c:430-440 | one leaf and no free slot: done is reported and the root is not there |
| PullTight.HeightIsTight | kernel/nettest.c:432-440 | a chain of 274 nodes, fifteen leaves and the next node each, and a store of any size: done is reported and the leaf at the end of the chain was dropped |
| SeqChannel.NoTornReads | kernel/nettest.c:334-345 | over every interleaving A writes the shared areas only while B does not read, and what B reads is A's whole answer to its latest request |
| SeqChannel.InTimeExactly | kernel/nettest.c:393-418 | the run is in its rendezvous phases exactly if its first three turns are not all A's, so that B can take its baseline before the announcement |
| SeqChannel.DeadlockIff | kernel/nettest.c:314-317 | unless the first three turns are all A's, a side can always move until both are done; otherwise both wait for ever |
| SeqChannel.LateSampleHalts | kernel/nettest.c:393-397 | three turns of A before the first of B, from any initial state, end in the deadlock |
| KeyChannel.AlwaysInStep | kernel/nettest.c:1034-1072 | under every interleaving the two sides stay within one message of each other and every field read belongs to the message announced |
| KeyChannel.VerdictsMatch | kernel/nettest.c:318-324 | under every start order verdict s is computed on message s after messages 0 to s-1, and one side can move until both are done |
| Wire.LeRoundTrip | kernel/nettest.c:478-480 | a little-endian field reads back as the number written |
| TrustStore.LifeRoundTrip | kernel/nettest.c:654-659 | a packed lifecycle record is parsed back unchanged |
| TrustStore.AuthRoundTrip | kernel/nettest.c:473-481 | a packed authorization record is parsed back unchanged |
| Wire.LeByte | kernel/nettest.c:478-480 | byte i of a field is x / 256^i modulo 256 |
| TrustStore.LifeLayout | kernel/nettest.c:654-659 | operation, subject, epoch and zeros at bytes 0, 1, 33 and 41 |
| TrustStore.AuthLayout | kernel/nettest.c:473-481 | root, component, destination, ceiling, nonce and expiry at bytes 0, 32, 36, 40, 48 and 56 |
| TrustStore.LifeAcceptedIff | kernel/nettest.c:690-713 | a lifecycle record is accepted exactly if the authority signed it, it is one of the three operations and its epoch is beyond those of all accepted ones |
| TrustStore.UsedUpIff | kernel/nettest.c:604-619 | a nonce is used up exactly if every check but the ceiling passes |
| TrustStore.RunReflects | kernel/nettest.c:690-713 | over every sequence of records and attempts: accepted epochs strictly increase, the current key is the subject of the last accepted enroll or rotate, the lists hold the first 16 revocations and the first 64 used nonces |
| TrustStore.AcceptedIff | kernel/nettest.c:722-732 | a migration is accepted exactly when the current key, not among the first 16 revoked, signed it for this root, scope and time, with a nonce not among the first 64 used and the source's whole authority as ceiling |
| TrustStore.NonceOnce | kernel/nettest.c:604-619 | while at most 64 nonces are in use, none is accepted twice |
| TrustStore.ReplayIff | kernel/nettest.c:575-577 | an accepted migration presented again is accepted exactly if 64 nonces were already in use |
| TrustStore.RevokeIff | kernel/nettest.c:706-708 | revoking the signer of an accepted migration has no effect exactly if 16 revocations were already on record |
| TrustStore.RevokedForever | kernel/nettest.c:676-678 | a key revoked among the first 16 never authorises again, even after a new enrollment |
| TrustLimits.ReplayHappens | kernel/nettest.c:575-577 | under every signature scheme in which signed messages open: a run with 64 nonces after which one migration is accepted twice |
| TrustLimits.RevocationLost | kernel/nettest.c:706-708 | under every such scheme: a run with 16 revocations after which the revoked current key still authorises |
| TrustStore.Gate.constructor | kernel/nettest.c:680-684 | a fresh store trusts no source key |
| TrustStore.Gate.IsRevoked | kernel/nettest.c:677-678 | true exactly for keys on the list |
| TrustStore.Gate.NonceSeen | kernel/nettest.c:576-576 | true exactly for nonces on the list |
| TrustStore.Gate.NonceMark | kernel/nettest.c:577-577 | appends while fewer than 64 are stored |
| TrustStore.Gate.LifecycleApply | kernel/nettest.c:690-713 | verdict and new state are those of the transition; a refused record changes nothing |
| TrustStore.Gate.MigrateVerify | kernel/nettest.c:604-732 | verdict and new state are those of the transition; only the nonce list can change, and not on a refusal before the last check |
| AuthSet.HashCompare | kernel/nettest.c:549-549 | three-way lexicographic comparison |
| AuthSet.SortedUnique | kernel/nettest.c:550-551 | a hash-sorted list is determined by its sublists of equal hash |
| AuthSet.BubbleSort | kernel/nettest.c:553-554 | sorted by hash, capabilities of equal hash in their old order |
| AuthSet.SetPack | kernel/nettest.c:552-560 | the buffer holds the serialization of the stable sort of the input, and zeros behind it |
| AuthSet.CapLayout | kernel/nettest.c:556-560 | hash, rights and length at bytes 0, 32 and 36 of a member |
| AuthSet.PackRoundTrip | kernel/nettest.c:1175-1176 | decoding field by field gives back each capability |
| AuthSet.CanonicalIff | kernel/nettest.c:550-551 | every ordering packs to the same bytes exactly if no hash occurs with two different rights or lengths |
| AuthSet.VerifySet | kernel/nettest.c:1164-1181 | nothing is minted on a bad signature or size; otherwise, up to the first member whose length is outside 1..256, a handle of that length on the served root, with load, store and global permission |
| AuthSet.ArrivesWithinSignedIff | kernel/nettest.c:1175-1177 | neither rights nor hash of a member are looked at: what is minted stays within what was signed exactly if the signed rights include load, store and global and the member is for the served root |
| AuthSet.ReadOnlyArrivesWritable | kernel/nettest.c:1102-1114 | a member signed for loading only arrives writable |
| AuthSet.OtherObjectArrives | kernel/nettest.c:1174-1177 | a member for any other object arrives as a handle on the served root, the same one for every hash and rights |
| AuthSet.SetArrives | kernel/nettest.c:1169-1180 | a set the source signed is read by the destination as that set in hash order |
| SwCap.Accepted | carmix/swcap.c:56-96 | what an accepted re-mint implies: region inside root, window inside region, permissions within both; a refusal yields the zero handle |
| SwCap.RemintIff | carmix/swcap.c:56-96 | a re-mint succeeds exactly if the custodian is up, the reference is a current unsealed one for the object in the region, its window a non-empty part of the region, the region inside the root, and its permissions harmless ones of the region |
| SwCap.CheckIff | carmix/swcap.c:98-104 | an access is granted exactly if it ends within the window and needs no other permission |
| SwCap.NoAmplification | carmix/swcap.c:56-104 | for any reference whatever, each access granted by the minted handle is granted by the region and by the root at the shifted offset |
| SwCap.SameBytes | carmix/swcap.c:80-92 | under a root that ends within 2^64 the bytes granted lie inside the root and the base does not wrap |
| SwCap.WriteXorExecute | carmix/swcap.c:74-77 | a minted handle is never writable and executable, nor privileged |
| SwCap.WithinRightsIff | carmix/swcap.c:98-104 | a handle grants only accesses within given rights exactly if its permissions are among them |
| SwCap.HopExact | carmix/swcap.c:26-96 | a hop succeeds exactly when it is possible, and then keeps window and permissions exactly; otherwise nothing is minted |
| SwCap.TravelExact | carmix/swcap.c:26-96 | over any chain of hops onto any bases the window in the object and the permissions are those of the start, or the handle is dead for good |
| SwCap.AntiampExact | kernel/nettest.c:587-600 | the ceiling is granted exactly if it equals 256 |
| SwCap.SetMemberBounded | kernel/nettest.c:1102-1114 | a set member is granted exactly for lengths 1 to 256, with the permissions of the root |
| Field25519.Weight16 | kernel/tweetnacl.c:280-280 | the weight beyond the top limb is 38 modulo the prime |
| Field25519.CarriedCong | kernel/tweetnacl.c:273-283 | a carry pass keeps the residue |
| Field25519.FirstPass | kernel/tweetnacl.c:361-361 | limbs after one pass: digits, but for limb 0 below 2^53 |
| Field25519.SecondPass | kernel/tweetnacl.c:362-362 | limbs after two passes: digits, limb 0 in [-38, 2^16 + 38) |
| Field25519.Carry | kernel/tweetnacl.c:273-283 | the pass in place, no intermediate value leaving 64 bits for limbs up to 2^63 - 2^48 |
| Field25519.AddRow | kernel/tweetnacl.c:358-358 | one row of products, within 64 bits for limbs below 2^26 |
| Field25519.Columns | kernel/tweetnacl.c:356-358 | the 31 columns stand for the product |
| Field25519.FoldedCong | kernel/tweetnacl.c:359-359 | folding the upper columns keeps the residue |
| Field25519.Mul | kernel/tweetnacl.c:354-363 | for limbs below 2^26, aliased or not: result congruent to the product, limbs reduced, no overflow |
| Field25519.PowerLoop | kernel/tweetnacl.c:375-378 | square-and-multiply yields the power of the loop's exponent |
| Field25519.InverseExponent | kernel/tweetnacl.c:375-378 | the exponent of inv25519 is p - 2 |
| Field25519.RootExponent | kernel/tweetnacl.c:387-390 | the exponent of pow2523 is (p - 5) / 8 |
| Field25519.Invert | kernel/tweetnacl.c:370-380 | the power p - 2, reduced; if p is prime, the inverse of every element that is not 0, and 0 for 0 |
| Modular.Fermat | kernel/tweetnacl.c:370-380 | a^(p-1) is 1 modulo a prime p that does not divide a |
| Field25519.PowRoot | kernel/tweetnacl.c:382-392 | the power (p - 5) / 8, reduced |
| FieldPack.ThirdPass | kernel/tweetnacl.c:300-302 | a third pass leaves digits only |
| FieldPack.BorrowedSign | kernel/tweetnacl.c:304-311 | the top limb of the difference is negative exactly when the number is below the prime |
| FieldPack.Subtract | kernel/tweetnacl.c:304-311 | difference with borrow, limb by limb, and its sign bit |
| FieldPack.MaskSelects | kernel/tweetnacl.c:285-293 | the mask ~(b-1) and exclusive or exchange two limbs for b = 1 and keep them for b = 0 |
| FieldPack.Select | kernel/tweetnacl.c:285-293 | the loop of exclusive ors exchanges the two elements or leaves them |
| FieldPack.Pack | kernel/tweetnacl.c:295-318 | for limbs up to 2^63 - 2^48 the 32 bytes are the digits of the value modulo the prime |
| FieldPack.Unpack | kernel/tweetnacl.c:335-340 | the low 255 bits as limbs |
| FieldPack.PackUnpack | kernel/tweetnacl.c:295-340 | unpacking what was packed gives the residue |
| FieldPack.PackedEqual | kernel/tweetnacl.c:320-326 | two elements pack to the same bytes exactly when they are congruent |

## Left out

- BLAKE3 compression rounds, SIMD kernels and their dispatch: `compress` is a parameter and the SIMD degree any of 1, 2, 4, 8, 16.
- Keyed and derive-key initialization beyond the key and flags every function takes as parameters: no tree logic in it.
- GateExecutor.Exec: cut off after a given number of rounds, because a module may loop for ever; every number of rounds is covered.
- GateFrontend.Reader.ReadS32: the fifth group is cut to 32 bits and later groups are shifted out, where C leaves the shifts undefined.
- GatePrograms.StmtRuns: says nothing of programs without a meaning, whose loops do not end; code and table indices are unbounded here, 16 bits wide in the source.
- The section parser of the Wasm loader and its validation statuses: easy members around `LowerExpr`.
- Equivalence with the WebAssembly semantics: the executor adds the static offset modulo 2^32.
- The FORCE_RAW optimizer mode and the tamper builds: deliberate measurement and demonstration variants.
- GateChecker.StepTyped: C leaves the overflow of the executor's signed additions, subtractions, multiplications and left shifts undefined; here they wrap, and `WordIsExactIff` says when that matters.
- Null-pointer arguments and their statuses, everywhere.
- SlsDiff.Diff: output and memo are sequences within their capacities, not caller-supplied arrays; on an error `cmps` is bounded, not exact.
- EpochTree.NextPow2: counts above 2^31 have no result, because the 32-bit doubling of the source does not return on them (`DoublingLoopsIff`).
- EpochTree.Epoch.constructor: lengths with such a count have no epoch, for the same reason; all others are covered.
- PullSync.Puller.BSync: has no result with a peer with which the walk never ends (`EndsIff` says when there is one); the spin budget is a peer that falls silent.
- PullHonest.HonestSync: stated up to height 273, where no child can be dropped from the 4096-entry stack, and not true at 274 (`HeightIsTight`); in higher graphs `PushExact` says what is dropped, and `AlwaysDone` that the walk still ends.
- PullHonest.Source.Serve: stores with an object that is not `Servable` are left out: exactly there the source reads past the end of the object or writes past its area (`ServableIff`).
- SeqChannel.DeadlockIff: waiting without a budget and counters without wrap-around.
- FieldPack.Pack: limbs within 2^48 of the 64-bit limit are left out; the first addition of the carry pass overflows on some of them.
- Field25519.Invert: that 2^255 - 19 is prime is a hypothesis of the inverse, not shown.
- Curve group, SHA-512, Salsa20 and Poly1305, and therefore Ed25519 itself: signature opening is a parameter.
- The CHERI custodian and its backends: their decisions are those of `SwCap`, their mechanism is not in the repository.
- Step-10 gate with a fixed key, attestation-gated migration and the token round trip: the same checks with fewer states.
- PCI, BAR and shared-memory discovery, serial output, timing and the kernel proper.
