# ARTIQ: verified models of the compiler, the RPC link and two drivers

A Dafny 4.11 model of five parts of ARTIQ, with proofs about them. `dafny verify dfyconfig.toml`
checks the whole project.

1. **Type unification** (`Types`, `UnionFind`, `Unification`, `UnificationErrors`, `Solvability`).
   Type variables are objects with a parent and a rank that `unify` updates in place. Every method is proved equal to a function on
   snapshots of these fields, and the theory is about that function. Unification is sound, monotone
   and most general over finite trees: after success the bindings have exactly the solutions of the
   old bindings that satisfy the equation, a type error means that there are none, and one solution
   is enough for success. Equality is never lost, links climb in rank, and a walk of `find` takes at
   most log2(n) steps. Nested calls are counted by `depth`, which stands for the recursion limit of
   the interpreter: a solvable equation needs no more than three times the height of the solution.
   Types with different heads are reported as a clash, and where the bindings stay solvable nothing
   else is. There is no occurs check: bindings have a solution by finite trees exactly when their variables can
   be put in layers, and a run keeps them solvable exactly when each of its bindings would have passed
   the check.
2. **Delay expressions** (`IODelay`, `FoldingNormalForms`, `FoldingMeaning`, `FoldingRounding`,
   `FoldingTruncation`, `FreeVariables`). The value of an expression depends exactly on the variables
   that occur in it.
   Folding terminates, is idempotent, reaches exactly the normal forms, keeps free variables within
   those left over, and preserves meaning for expressions that respect units. Merging conversions is
   where it can change a value: to seconds it is right exactly for certain periods, to machine units
   it is never right for all values, and the error of a sum is bounded exactly if the periods agree,
   by n-1 for n conversions.
3. **Embedding maps and subkernels** (`EmbeddingMaps`, `SubkernelWorklist`, `ValueInfos`). Ids of
   subkernels and messages are stable and distinct along every chain of inherited maps; the worklist
   of subkernels ends and uploads exactly the reachable ones, each once; and an attribute query
   leaves no earlier object unchecked although the list it walks may grow.
4. **SSA edits and the RPC wire** (`SSA`, `RpcTags`, `Packing`, `RpcWire`, `RpcEncoding`,
   `RpcDecoding`, `RpcAcceptance`, `RpcConversion`, `CommKernels`, `RpcSender`). Use lists stay the inverse of operand lists; tags are
   consumed exactly if and only if a syntactic condition on the type holds; a value is sent if and only
   if the type accepts it, as the encoding of what it is converted to, which can be decoded in one way
   only, whatever follows; and buffering and fragmentation are invisible.
5. **Register and phase arithmetic** (`PllPlan`, `ADF5356Fields`, `ADF5356Reference`,
   `ADF5356Registers`, `ADF5356Driver`, `PhaseTracking`, `AD9910Driver`, `RealArithmetic`). For every
   reference clock and every output frequency in range, `set_frequency` ends without an error and the
   registers stand for a frequency below the target by less than 2^-24 Hz, with every bit outside the
   written fields as before; the device ends up with the cached registers on both paths of `sync`, up
   to the autocalibration bit; and the 32-bit phase word of the AD9910 is that of
   unbounded arithmetic for all times, so that the output tracks its promised phase with a latency
   that does not depend on the time.

Conventions. A method that changes state is proved against a function of the old state; the
properties are lemmas about these functions. Exceptions are outcomes. Numbers that the source holds
as floats are reals. A `ghost U` parameter is the set of all objects of one compilation.

Where the code does not do what one might expect, the model says exactly when it does:

- A cyclic equation succeeds (`NoOccursCheck`). Equating a variable without a type with a type always
  succeeds, and leaves bindings with a solution exactly when the variable cannot be reached from the
  type through the bindings (`VariableNeedsOccursCheck`); the same test decides whole runs
  (`RunIsSolvableIffOccursChecked`).
- Merging two `MUToS` is right for all values exactly when the periods allow it
  (`MergeIsRightIffMovable`); merging two `SToMU` is wrong for some values under every operator and for
  all periods (`TruncatedMergeIsNeverRight`), in sums by a bounded amount exactly if the periods are the
  same (`SumErrorIsBoundedIffSamePeriod`); dropping `// 1` from a variable is right exactly if it is not
  a number of seconds (`FloorByOneIsRightIffCounted`).
- Removing an incoming pair from a phi, or overwriting an operand, keeps the use lists right exactly
  when the operand does not occur elsewhere in the same instruction (`RemovePair`, `SetOperand`,
  `SharedIncomingValueIsLost`).
- `_skip_rpc_value` and `_send_rpc_value` consume exactly the tag of one value if and only if the
  type has no hidden keyword or range (`SkipIsExactIffKeywordFree`, `SendIsExactIffConsumed`). A 64-bit
  integer after a range in a tuple is sent as four bytes, or not at all (`RangeShiftsTags`).
- The loop of `set_frequency` that selects the divider ends exactly for positive frequencies
  (`DividerExistsIffPositive`). Its lower range check compares `1 << rf_div_sel`, a 32-bit integer in a
  kernel, and so refuses exactly the targets below 53.125 MHz whose 2^30-fold reaches the VCO range
  (`LowestOutput`): a target below about 3.17 Hz raises nothing and sets the device to another frequency
  (`LowTargetsAreMissed`, `OneHertz`).
- A split 28-bit number is joined back exactly when it is below 2^28 (`SplitJoins`).
- `get_mu` returns what `set_mu` stored exactly when the frequency word is below 2^31, or the phase
  and amplitude words are all ones (`GetMuReadsBackIff`): `read64` sign-extends the low word.
- `read_ram` leaves a response in the queue exactly when the list is empty (`ReadRam`).
- The loop of `TVar.find` assigns to `root.parent`, which reads like path compression. The chained
  assignment moves `root` first and so stores the parent that is already there: the method is proved
  to change nothing, and the logarithmic bound comes from the ranks alone.

## Model

| member | source | states |
|---|---|---|
| `Types.TVar.constructor` | artiq/compiler/types.py:57-59 | a fresh variable is its own parent and has rank 0 |
| `Types.TVar.Find` | artiq/compiler/types.py:61-72 | returns the representative, leaves every variable as it was, and takes as many steps as there are links |
| `Types.Type.UnifyWith` | artiq/compiler/types.py:74-91 | dispatches on the class of the type; outcome and all bindings are those of the function `Unify`, also when it raises |
| `Types.UnifyVar` | artiq/compiler/types.py:74-91 | `TVar.unify` computes `Unify` on the heap, for bound and unbound variables on either side |
| `Types.JoinVars` | artiq/compiler/types.py:82-87 | two unbound variables become one class under the one of higher rank, and the rank grows only on a tie |
| `Types.UnifyMono` | artiq/compiler/types.py:130-140 | `TMono.unify` computes `Unify`: names and parameter keys, then the parameters in order |
| `Types.UnifyTuple` | artiq/compiler/types.py:181-190 | `TTuple.unify` computes `Unify`: lengths, then the elements in order |
| `Types.UnifyValue` | artiq/compiler/types.py:564-570 | `TValue.unify` computes `Unify` |
| `Types.UnifyParts` | artiq/compiler/types.py:135-138 | the loop over parts computes `UnifyAll` and stops at the first error |
| `Types.Unify` | artiq/compiler/types.py:74-91 | every outcome, success or error, keeps ranks strictly increasing along variable links |
| `Types.Link` | artiq/compiler/types.py:82-87 | joining two classes keeps ranks strictly increasing |
| `UnionFind.UnifyLeads` | artiq/compiler/types.py:74-91 | every unification is a sequence of bindings and joins of unbound variables |
| `UnionFind.TopAfter` | artiq/compiler/types.py:82-87 | a join redirects exactly the chains that ended in the lower variable |
| `UnionFind.FindAfter` | artiq/compiler/types.py:61-91 | representatives only move forward, and a class bound to a type stays bound to it |
| `UnionFind.EqualForever` | artiq/compiler/types.py:155-158 | types that compare equal through `find` compare equal after all later steps |
| `UnionFind.UnifyMakesAgree` | artiq/compiler/types.py:74-91 | after success the two sides agree wherever they are compared, at every depth |
| `UnionFind.SizedAfter` | artiq/compiler/types.py:82-89 | a representative of rank k goes on standing for at least 2^k variables |
| `UnionFind.StepsClimb` | artiq/compiler/types.py:61-72 | each step of a walk climbs at least one rank |
| `UnionFind.FindIsLogarithmic` | artiq/compiler/types.py:61-72 | a walk over n variables takes at most log2(n) steps |
| `Unification.UnifyMostGeneral` | artiq/compiler/types.py:74-91 | for every assignment and depth: no solution is gained or lost, an error other than running out of stack means no solution, and enough stack means success |
| `Unification.UnifySolutions` | artiq/compiler/types.py:130-140 | after success the solutions are exactly the old ones that satisfy the equation; after a type error there are none |
| `Unification.UnifySucceeds` | artiq/compiler/types.py:181-190 | if one solution exists, unification ends with success within three times its height |
| `UnificationErrors.ClashIsReported` | artiq/compiler/types.py:130-140 | types that are represented by different names, lengths, values or classes raise `UnificationError`, types of one name with different parameters `AssertionError`, and nothing is bound, at every depth from three on |
| `UnificationErrors.NoAssertionError` | artiq/compiler/types.py:133-134 | where equal names have equal parameters the assertion never fails, and the bindings stay that way |
| `UnificationErrors.EndsInTime` | artiq/compiler/types.py:74-91 | if the bindings that a call leaves have a solution, a stack of three times the height of the sides suffices, whatever the outcome |
| `UnificationErrors.OutcomeIsExact` | artiq/compiler/types.py:181-190 | then the call succeeds exactly if that solution equates the two sides, and otherwise raises a type error: `UnificationError` where equal names have equal parameters |
| `Unification.NoOccursCheck` | artiq/compiler/types.py:74-91 | the smallest failing input: equating a variable with a list of itself succeeds and leaves bindings without a finite solution |
| `Solvability.SolvableIffLayered` | artiq/compiler/types.py:74-91 | bindings have a solution by finite trees if and only if levels exist that never rise along links and fall from a bound variable to the variables of its type |
| `Solvability.BindIsSolvableIffOccursChecked` | artiq/compiler/types.py:88-89 | binding an unbound variable keeps solvable bindings solvable if and only if it cannot be reached from the type |
| `Solvability.LinkIsSolvable` | artiq/compiler/types.py:82-87 | joining two unbound variables always keeps solvable bindings solvable |
| `Solvability.VariableNeedsOccursCheck` | artiq/compiler/types.py:74-91 | equating a variable without a type with a type always succeeds, and leaves a solution if and only if the representative is not reachable from the type before the call |
| `Solvability.StepsAreSolvableIffOccursChecked` | artiq/compiler/types.py:74-91 | any sequence of bindings and joins keeps solvable bindings solvable if and only if each binding passes the occurs check |
| `Solvability.RunIsSolvableIffOccursChecked` | artiq/compiler/types.py:74-91 | the same for any run of unifications, successful or not |
| `Unification.EqualMeansSame` | artiq/compiler/types.py:155-158 | types that compare equal mean the same tree under every solution |
| `Unification.EqualityEnds` | artiq/compiler/types.py:202-204 | in solvable bindings the comparison ends |
| `Unification.UnifyMakesEqual` | artiq/compiler/types.py:155-158 | after success the two sides never compare unequal, and compare equal whenever the bindings have a solution |
| `Unification.RunKeepsForestShallow` | artiq/compiler/types.py:61-91 | over any sequence of unifications from fresh variables: acyclic links, ranks that climb, classes of at least 2^rank variables, walks of at most log2(n) steps |
| `Unification.RunKeepsEqual` | artiq/compiler/types.py:74-91 | over any sequence of unifications no two equal types become unequal |
| `Unification.RunSolutions` | artiq/compiler/types.py:74-91 | over any sequence, the solutions left lie between those of the start and those that also satisfy every equation; if every call succeeds, they are exactly the latter |
| `IODelay.Fold` | artiq/compiler/iodelay.py:41-163 | folding terminates because without substitutes it never makes a term larger |
| `IODelay.FoldBinOp` | artiq/compiler/iodelay.py:144-193 | merging adds at most the operator itself to the size of its operands |
| `IODelay.Distinct` | artiq/compiler/iodelay.py:226-239 | keeps exactly the operands other than constants |
| `FoldingNormalForms.DistinctHasNoRepeats` | artiq/compiler/iodelay.py:226-239 | no operand is kept twice |
| `FoldingNormalForms.DistinctKeepsOrder` | artiq/compiler/iodelay.py:226-239 | the operands kept stand in the order in which they first occur |
| `IODelay.LargestConst` | artiq/compiler/iodelay.py:226-239 | is a largest constant among the operands, and absent exactly if there is none |
| `IODelay.CollectMax` | artiq/compiler/iodelay.py:226-239 | `Max.fold` with its loop that folds the operands computes the folded maximum |
| `FoldingNormalForms.FoldNormalizes` | artiq/compiler/iodelay.py:144-163 | a folded expression is in normal form |
| `FoldingNormalForms.NormalIsFixed` | artiq/compiler/iodelay.py:144-163 | a normal form folds to itself |
| `FoldingNormalForms.FoldIsIdempotent` | artiq/compiler/iodelay.py:105-239 | folding twice is folding once, for every expression |
| `FoldingNormalForms.FixedIffNormal` | artiq/compiler/iodelay.py:105-239 | folding leaves an expression alone if and only if it is normal |
| `FoldingNormalForms.FoldKeepsVars` | artiq/compiler/iodelay.py:73-80 | the free variables are those not covered and those of the substitutes used |
| `FreeVariables.FreeVarsAreSubterms` | artiq/compiler/iodelay.py:95-96 | the free variables are exactly the variables that occur as subterms |
| `FreeVariables.ValueDependsOnFreeVars` | artiq/compiler/iodelay.py:73-74 | environments that agree on the free variables give the same value |
| `FoldingMeaning.DivisionMeaning` | artiq/compiler/iodelay.py:194-203 | division is exact, or rounded towards minus infinity for both signs of the divisor, and 0 for a zero divisor |
| `FoldingMeaning.TruncMeaning` | artiq/compiler/iodelay.py:116-117 | machine units are rounded towards zero |
| `FoldingMeaning.FoldMaxMeaning` | artiq/compiler/iodelay.py:223-239 | dropping repeats and all but the largest constant keeps the maximum |
| `FoldingMeaning.FoldKeepsUnits` | artiq/compiler/iodelay.py:144-163 | a unit-correct expression folds to one of the same unit, and a whole number to a whole number |
| `FoldingMeaning.FoldMeaning` | artiq/compiler/iodelay.py:73-163 | the value of the folded expression is that of the original with each covered variable set to the value of its substitute |
| `FoldingRounding.FoldRounds` | artiq/compiler/iodelay.py:112-151 | folding a sum or difference tree of n `SToMU` leaves changes its value by at most n-1 machine units |
| `FoldingRounding.RoundingIsReached` | artiq/compiler/iodelay.py:112-151 | for every n some tree of n leaves changes by exactly n-1 |
| `FoldingRounding.MergeIsRightIffMovable` | artiq/compiler/iodelay.py:144-151 | merging two `MUToS` under an operator is right for all values, and also for all whole machine units, if and only if the operator may move inside: equal periods for sums, a unit right period for products and quotients, unit periods for floor division |
| `FoldingTruncation.TruncatedMergeIsNeverRight` | artiq/compiler/iodelay.py:147-149 | under every operator and for all periods, merging two `SToMU` changes the value for some values of the variables |
| `FoldingTruncation.SumErrorIsBoundedIffSamePeriod` | artiq/compiler/iodelay.py:147-149 | merging a sum or difference of two `SToMU` is off by a bounded amount if and only if the periods are the same |
| `FoldingTruncation.FloorByOneOfWhole` | artiq/compiler/iodelay.py:188-193 | dropping a floor division by one is right for every expression that the units make whole |
| `FoldingTruncation.FloorByOneIsRightIffCounted` | artiq/compiler/iodelay.py:188-193 | for a variable it is right in all environments that respect the units if and only if the variable is not a number of seconds |
| `EmbeddingMaps.FirstFree` | artiq/compiler/embedding.py:207-211 | the search ends at the first key from the given one on that the truthiness test takes for free |
| `EmbeddingMaps.StoreKeeps` | artiq/compiler/embedding.py:202-215 | forward and reverse maps stay inverse, no key is overwritten, at most the new object is added |
| `EmbeddingMaps.StoreIsMinimal` | artiq/compiler/embedding.py:202-215 | a known object changes nothing, and a new one gets the first free key above the last one given |
| `EmbeddingMaps.StoreMessageKeeps` | artiq/compiler/embedding.py:241-254 | a message name keeps the id it first got, and the object behind it is a message of that name |
| `EmbeddingMaps.InheritedEntries` | artiq/compiler/embedding.py:80-89 | only subkernels and messages are inherited, each under the key it had |
| `EmbeddingMaps.InheritKeeps` | artiq/compiler/embedding.py:80-89 | an inherited map is valid and has exactly the subkernels and messages of the older one |
| `EmbeddingMaps.CopyObjects` | artiq/compiler/embedding.py:80-89 | the inheritance loops copy every entry, in both directions, and nothing else |
| `EmbeddingMaps.CopyNames` | artiq/compiler/embedding.py:85-89 | reading the names off the copied messages gives back the old table of names |
| `EmbeddingMaps.EmbeddingMap.Fresh` | artiq/compiler/embedding.py:58-79 | a map without an older one is empty |
| `EmbeddingMaps.EmbeddingMap.constructor` | artiq/compiler/embedding.py:58-89 | a map with an older one is the function `Inherit` of it |
| `EmbeddingMaps.EmbeddingMap.StoreObject` | artiq/compiler/embedding.py:202-215 | the method computes the function `Store`, for known and new objects |
| `EmbeddingMaps.EmbeddingMap.StoreSubkernelMessage` | artiq/compiler/embedding.py:241-254 | the method computes `StoreMessage` and returns the stored message |
| `EmbeddingMaps.ApplyKeepsIds` | artiq/compiler/embedding.py:202-260 | no single operation changes the id of a subkernel or a message |
| `EmbeddingMaps.ChainKeepsIds` | artiq/compiler/embedding.py:80-89 | along any chain of stores and inheritances every subkernel and message keeps the id it first got |
| `EmbeddingMaps.ChainKeepsIdsApart` | artiq/compiler/embedding.py:202-215 | along any chain two keys hold the same object only if they are equal, and key 0 is never given out |
| `SubkernelWorklist.Compile` | artiq/coredevice/core.py:180-198 | compiling adds exactly the subkernels the function refers to, and reports an RPC exactly if the function uses one |
| `SubkernelWorklist.Pass` | artiq/coredevice/core.py:204-213 | one pass compiles every known subkernel that was not compiled, and fails only on a reachable one with an RPC |
| `SubkernelWorklist.ClosedHoldsReachable` | artiq/coredevice/core.py:200-216 | a set that is closed under calls holds everything reachable |
| `SubkernelWorklist.AllUploaded` | artiq/coredevice/core.py:214-216 | when the exit test holds, exactly the reachable subkernels have been uploaded |
| `SubkernelWorklist.CompileAndUploadSubkernels` | artiq/coredevice/core.py:200-216 | the loop ends for every finite call graph, uploads each reachable subkernel exactly once under its permanent id, and fails if and only if a reachable one uses an RPC |
| `ValueInfos.ValueInfo.constructor` | artiq/compiler/embedding.py:288-290 | starts without objects and attributes |
| `ValueInfos.ValueInfo.Append` | artiq/compiler/embedding.py:292-296 | the object is recorded and queued for every known attribute |
| `ValueInfos.ValueInfo.WalkObjects` | artiq/compiler/embedding.py:835-838 | the first query visits the live list, including what is appended during the walk |
| `ValueInfos.ValueInfo.WalkQueue` | artiq/compiler/embedding.py:835-838 | a later query visits the detached queue, and new objects go to the new one |
| `ValueInfos.ValueInfo.UnifyAttribute` | artiq/compiler/embedding.py:831-845 | afterwards every object recorded before is checked, a repeated query visits only what was queued, and each object stays checked or queued |
| `SSA.Value.constructor` | artiq/compiler/ir.py:89-90 | a new value has no uses and no operands |
| `SSA.Value.SetOperands` | artiq/compiler/ir.py:174-179 | use lists stay the inverse of operand lists, and the change to each of them is stated |
| `SSA.Value.DropReferences` | artiq/compiler/ir.py:181-182 | no operand is left and no use list names the user |
| `SSA.Value.ReplaceUsesOf` | artiq/compiler/ir.py:184-192 | every occurrence in the operands is replaced and the use lists stay right |
| `SSA.Value.ReplaceAllUsesWith` | artiq/compiler/ir.py:92-94 | in every user the value is replaced; if the replacement is another value, nothing refers to the old one |
| `SSA.Value.AddOperand` | artiq/compiler/ir.py:1292-1294 | one more operand keeps the use lists right |
| `SSA.Value.SetOperand` | artiq/compiler/ir.py:1529-1540 | overwriting one operand keeps the use lists right if and only if the old one does not occur elsewhere |
| `SSA.Value.AddIncoming` | artiq/compiler/ir.py:299-304 | a new incoming pair keeps the use lists right |
| `SSA.Value.RemovePair` | artiq/compiler/ir.py:306-318 | removing a pair keeps the use lists right if and only if neither half occurs elsewhere in the phi |
| `SSA.Value.RemoveIncomingValue` | artiq/compiler/ir.py:306-311 | the first pair with the value goes, pairs stay pairs, and the same condition is exact |
| `SSA.Value.RemoveIncomingBlock` | artiq/compiler/ir.py:313-318 | the first pair with the block goes, pairs stay pairs, and the same condition is exact |
| `SSA.SharedIncomingValueIsLost` | artiq/compiler/ir.py:306-318 | a phi that gets one value from two blocks loses its use entry with the first of them |
| `SSA.Value.InsertAt` | artiq/compiler/ir.py:376-395 | an instruction enters a block at its place, and membership agrees with the parent links |
| `SSA.Value.Remove` | artiq/compiler/ir.py:397-401 | exactly the instruction leaves its block |
| `SSA.Value.Replace` | artiq/compiler/ir.py:403-405 | the replacement stands exactly where the instruction stood |
| `SSA.Value.Erase` | artiq/compiler/ir.py:230-239 | afterwards the instruction has no operands and no block, and all other blocks are unchanged |
| `SSA.Value.ReplaceWith` | artiq/compiler/ir.py:241-247 | afterwards nothing refers to the instruction, it refers to nothing, every user has the replacement, and a replacing instruction stands at its place |
| `SSA.EditedOne` | artiq/compiler/ir.py:174-192 | an edit of one user keeps the inverse if and only if it is right for that user |
| `SSA.PredecessorsMatchSuccessors` | artiq/compiler/ir.py:414-418 | if every live terminator ends its block, p is a predecessor of b exactly if b is a successor of p |
| `RpcTags.SkipRpcValue` | artiq/coredevice/comm_kernel.py:428-442 | the recursive method on the shared buffer computes the function `Skip`, errors included |
| `RpcTags.SkipHead` | artiq/coredevice/comm_kernel.py:428-442 | skipping one value leaves the tags that follow, preceded by what a keyword inside the type hides |
| `RpcTags.SkipIsExactIffKeywordFree` | artiq/coredevice/comm_kernel.py:428-442 | skipping consumes exactly the tag that `rpc_tag` makes, whatever follows, if and only if the type has no keyword in it |
| `Packing.UnpackPackInt32` | artiq/coredevice/comm_kernel.py:331-332 | unpacking inverts packing of every 32-bit integer in both byte orders |
| `Packing.UnpackPackInt64` | artiq/coredevice/comm_kernel.py:334-335 | unpacking inverts packing of every 64-bit integer in both byte orders |
| `Packing.PackedByte` | artiq/coredevice/comm_kernel.py:202-217 | each byte is the digit of the number in base 256 that the byte order puts there |
| `RpcWire.SendHead` | artiq/coredevice/comm_kernel.py:444-568 | sending one value leaves the tags that follow, preceded by what a range or keyword leaves behind |
| `RpcWire.SendIsExactIffConsumed` | artiq/coredevice/comm_kernel.py:444-568 | a value that could be sent consumed exactly its tag, whatever follows, if and only if the type has no range outside lists and arrays and no keyword inside them |
| `RpcEncoding.BulkEncodes` | artiq/coredevice/comm_kernel.py:500-556 | the bulk paths for lists and arrays write the bytes of one element after another |
| `RpcEncoding.SendEncodes` | artiq/coredevice/comm_kernel.py:444-568 | every well-typed value is sent, as its encoding, and consumes exactly its tag unless it is a range |
| `RpcAcceptance.SentIffAccepted` | artiq/coredevice/comm_kernel.py:444-568 | a value is sent if and only if the type accepts it: class, 32- and 64-bit ranges, lengths, no zero byte in a string, a bool counting as an int, small ints for booleans in lists, and any int in integer arrays; for every type of which no tuple element leaves tags behind |
| `RpcConversion.SentAsConverted` | artiq/coredevice/comm_kernel.py:461-556 | an accepted value is sent exactly as the value of the type that it stands for: 0 and 1 for booleans, and array elements wrapped around |
| `RpcConversion.AcceptedIsEncoded` | artiq/coredevice/comm_kernel.py:444-568 | hence for every value: it is refused, or sent as the encoding of what it is converted to |
| `RpcEncoding.RangeShiftsTags` | artiq/coredevice/comm_kernel.py:557-566 | a range leaves its element tag, so that a 64-bit integer after it is sent as four bytes if it has 32 bits, and refused otherwise |
| `RpcEncoding.PairEncodes` | artiq/coredevice/comm_kernel.py:454-459 | the pair that goes wrong is well typed, and eight bytes would have been right |
| `RpcDecoding.DecodeEncode` | artiq/coredevice/comm_kernel.py:444-568 | a reference decoder of the sender's untagged format gives back the value and stops exactly at its end, whatever follows |
| `RpcDecoding.UniquelyDecodable` | artiq/coredevice/comm_kernel.py:444-568 | for one type the encodings are injective and prefix-free |
| `RpcDecoding.SentIsUniquelyDecodable` | artiq/coredevice/comm_kernel.py:444-568 | the bytes that the sender writes determine the value and where it ends |
| `RpcDecoding.BlockIsRepeatedScalar` | artiq/coredevice/comm_kernel.py:66-80 | the block read of a list returns the values, and stops at the place, of repeated single reads, also when the stream is too short |
| `CommKernels.CommKernel.Recv` | artiq/coredevice/comm_kernel.py:230-245 | any fragmentation is possible; nothing is returned exactly if the stream has ended |
| `CommKernels.CommKernel.Read` | artiq/coredevice/comm_kernel.py:230-245 | returns the next bytes of the stream however it is fragmented, or fails exactly if there are too few, and loses none |
| `CommKernels.CommKernel.ReadByte` | artiq/coredevice/comm_kernel.py:275-276 | returns the next byte, or fails exactly at the end |
| `CommKernels.CommKernel.ReadHeader` | artiq/coredevice/comm_kernel.py:247-264 | stops right after the first complete synchronization sequence and its type byte; fails exactly if the stream ends before, or if the type is not that of a reply, and then keeps the last type |
| `CommKernels.CommKernel.Synchronize` | artiq/coredevice/comm_kernel.py:250-259 | the loop stops right after the first four synchronization bytes in a row, and fails exactly if there are none |
| `CommKernels.HeaderOf` | artiq/coredevice/comm_kernel.py:30-42 | exactly the bytes 2, 5 to 10 and 15 are replies, and every other type is unknown |
| `CommKernels.SyncIsUnique` | artiq/coredevice/comm_kernel.py:247-264 | there is only one place where a stream is synchronized |
| `CommKernels.CommKernel.Write` | artiq/coredevice/comm_kernel.py:303-308 | bytes sent and buffered are all bytes written, in order, and the buffer is flushed exactly when it exceeds 4096 bytes |
| `CommKernels.CommKernel.Flush` | artiq/coredevice/comm_kernel.py:310-312 | nothing stays in the buffer and no byte is lost |
| `RpcSender.SendRpcValue` | artiq/coredevice/comm_kernel.py:444-568 | the recursive method writes the bytes and consumes the tags of the function `Send`, and fails exactly when it does, hence by `SentIffAccepted` on exactly the values that are not accepted |
| `RpcSender.SendListValue` | artiq/coredevice/comm_kernel.py:500-528 | the same for lists: length, then elements |
| `RpcSender.SendArrayValue` | artiq/coredevice/comm_kernel.py:529-556 | the same for arrays: shape, then elements |
| `RpcSender.SendElements` | artiq/coredevice/comm_kernel.py:454-459 | the loop over a tuple shares one tag buffer |
| `RpcSender.SendCopies` | artiq/coredevice/comm_kernel.py:525-527 | the loop over elements gives each a copy of the tags |
| `RpcSender.SendPartsOf` | artiq/coredevice/comm_kernel.py:504-528 | the elements in bulk or one by one, then their tag is skipped |
| `PllPlan.Gcd` | artiq/coredevice/adf5356.py:547-550 | the divisors of the result are exactly the common divisors |
| `PllPlan.SplitJoins` | artiq/coredevice/adf5356.py:554-555 | the halves join to the number if and only if it has at most 28 bits |
| `PllPlan.Reduce` | artiq/coredevice/adf5356.py:589-591 | the same fraction in lowest terms, with no larger denominator |
| `PllPlan.CalculatePll` | artiq/coredevice/adf5356.py:559-593 | INT, FRAC1 below 2^24, FRAC2/MOD2 a proper fraction in lowest terms; the implied frequency is below the target by less than 2^-24 Hz and equal to a target in whole hertz |
| `ADF5356Fields.JoinedValue` | artiq/coredevice/adf5356.py:337-352 | shifting and joining two 14-bit halves is multiplication and addition |
| `ADF5356Reference.PfdFalls` | artiq/coredevice/adf5356.py:527-531 | a larger reference counter never gives a higher PFD frequency |
| `ADF5356Reference.PfdHalves` | artiq/coredevice/adf5356.py:263-280 | doubling the counter halves the PFD frequency as the shift in `sync` does |
| `ADF5356Reference.CounterBounds` | artiq/coredevice/adf5356.py:199-213 | both searches for a counter stop at 15 or before, far from its 10 bits |
| `ADF5356Reference.ComputeReferenceCounter` | artiq/coredevice/adf5356.py:534-543 | the least counter, at most 10, whose PFD frequency is within the maximum |
| `ADF5356Reference.LeastIsBest` | artiq/coredevice/adf5356.py:198-213 | the least allowed counter has the highest allowed PFD frequency |
| `ADF5356Reference.SelectDivider` | artiq/coredevice/adf5356.py:189-193 | the loop ends with the least power of two that lifts the target to the VCO range |
| `ADF5356Reference.DividerExistsIffPositive` | artiq/coredevice/adf5356.py:189-193 | some divider lifts the target to the VCO range, so that the loop ends, if and only if the target is positive |
| `ADF5356Reference.LowestOutput` | artiq/coredevice/adf5356.py:195-196 | the check, which shifts a 32-bit integer, refuses a target exactly if it is below 53.125 MHz and its 2^30-fold reaches the VCO range; from 53.125 MHz on, and only there, at most six steps are needed |
| `ADF5356Reference.LowTargetsAreMissed` | artiq/coredevice/adf5356.py:195-196 | a target so low that it passes the check gives an output of at least 26.5 MHz, so not the target |
| `ADF5356Reference.OneHertz` | artiq/coredevice/adf5356.py:195-196 | at 1 Hz the shifted integer is 0, the check passes, and the VCO is asked for 4.29 GHz without a divider |
| `ADF5356Registers.WordsOf` | artiq/coredevice/adf5356.py:554-555 | every plan in range has fields that fit their widths and stand for it |
| `ADF5356Registers.ConfiguredReadsBack` | artiq/coredevice/adf5356.py:226-234 | INT, FRAC1, FRAC2 and MOD2 are read back exactly |
| `ADF5356Registers.ConfiguredKeeps` | artiq/coredevice/adf5356.py:227-239 | the low three bits of the output divider and the bleed setting are read back and the prescaler is kept |
| `ADF5356Registers.SelectWord` | artiq/coredevice/adf5356.py:236 | of the divider exponent the register keeps the remainder modulo 8 |
| `ADF5356Registers.ConfiguredNumbered` | artiq/coredevice/adf5356.py:227-242 | every word keeps its register number |
| `ADF5356Registers.ConfiguredRest` | artiq/coredevice/adf5356.py:226-242 | storing a plan leaves every bit outside the written fields as it was, by literal masks |
| `ADF5356Registers.ConfiguredBand` | artiq/coredevice/adf5356.py:240-242 | the low eight bits of the VCO band division are stored |
| `ADF5356Registers.SameRest` | artiq/coredevice/adf5356_reg.py:379-405 | outside the written fields lie the output enable bit, the output power and the registers that are never written |
| `ADF5356Registers.Bleed` | artiq/coredevice/adf5356.py:237-239 | the greatest setting whose 61.44 MHz-fold is at most 24 times the PFD frequency |
| `ADF5356Registers.Band` | artiq/coredevice/adf5356.py:240-242 | the least number of steps of 160 kHz that reaches the PFD frequency |
| `ADF5356Fields.MuxoutReadBack` | artiq/coredevice/adf5356_reg.py:202-211 | a MUXOUT setting is read back and no other bit changes |
| `ADF5356Registers.CalibratingPlan` | artiq/coredevice/adf5356.py:261-291 | the words made for the calibration hold the plan for half the PFD frequency |
| `ADF5356Registers.CalibratingPfd` | artiq/coredevice/adf5356.py:278-280 | during the calibration the device runs at half the PFD frequency |
| `ADF5356Driver.ADF5356.constructor` | artiq/coredevice/adf5356.py:54-75 | for every reference clock of 10 to 600 MHz the first registers are usable, with the least reference counter |
| `ADF5356Driver.ADF5356.InitRegisters` | artiq/coredevice/adf5356.py:394-524 | every register has its number and its literal value outside the computed fields, MOD2 is 1, the output power is 3, the flags are those of the device, the reference mode is that of the clock, and the bleed and band settings are those of the PFD frequency |
| `ADF5356Driver.ADF5356.Write` | artiq/coredevice/adf5356.py:130-131 | the device stores a word in the register that its low four bits name |
| `ADF5356Driver.ADF5356.Sync` | artiq/coredevice/adf5356.py:248-299 | on both paths registers 1-13 of the device are the cached ones, register 0 is the cached one outside bit 21, bit 21 is set exactly if the PFD frequency is at most 75 MHz, and the device runs the planned INT, FRAC1, FRAC2 and MOD2; on the second path it first calibrates at half the PFD frequency for the same VCO frequency |
| `ADF5356Driver.WithAutocal` | artiq/coredevice/adf5356.py:259 | the last word is REG0 with bit 21 set or cleared, and nothing else changed |
| `ADF5356Driver.ADF5356.Init` | artiq/coredevice/adf5356.py:81-107 | fails exactly if MUXOUT does not follow; on every path the device holds the cached registers, of which only the MUXOUT setting has changed, to the last one tried |
| `ADF5356Driver.ADF5356.SetOutputPowerMu` | artiq/coredevice/adf5356.py:143-154 | fails exactly outside 0-3 and then changes nothing; otherwise the setting is read back and committed, and no bit outside it changes |
| `ADF5356Driver.ADF5356.EnableOutput` | artiq/coredevice/adf5356.py:163-169 | the output is on, no other bit changes, and it is committed |
| `ADF5356Driver.ADF5356.DisableOutput` | artiq/coredevice/adf5356.py:171-177 | the output is off, no other bit changes, and it is committed |
| `ADF5356Driver.ADF5356.ChooseReference` | artiq/coredevice/adf5356.py:198-213 | the search ends within the counter, at the least one that is allowed for the VCO frequency |
| `ADF5356Driver.PlanFor` | artiq/coredevice/adf5356.py:218-224 | the range check on INT never fails |
| `ADF5356Driver.ADF5356.Configure` | artiq/coredevice/adf5356.py:218-242 | the plan is stored exactly, INT is in the range of the prescaler, and the registers are usable |
| `ADF5356Driver.ADF5356.Tune` | artiq/coredevice/adf5356.py:198-245 | the part after the checks, for any divider exponent |
| `ADF5356Driver.ADF5356.SetFrequency` | artiq/coredevice/adf5356.py:179-245 | succeeds exactly from 53.125 to 6800 MHz and below about 3.17 Hz, and otherwise changes nothing; on success the VCO is below the target times 2^sel, for the least sel, by less than 2^-24 Hz, at the highest allowed PFD frequency, with the device in agreement with the cache; from 53.125 MHz on the output divider is that 2^sel, below it only sel modulo 8 is stored; the output stays enabled or disabled and keeps its power, and no register changes outside the written fields |
| `PhaseTracking.TrackedIsUnbounded` | artiq/coredevice/ad9910.py:594-602 | for all times the phase word of the 32-bit computation is that of unbounded integers |
| `PhaseTracking.TrackedIsExact` | artiq/coredevice/ad9910.py:594-602 | the returned offset is that of wrapping around once, after the multiplications |
| `PhaseTracking.TracksPhase` | artiq/coredevice/ad9910.py:208-218 | whenever the accumulator is cleared, the output at every time is within one phase word, modulo whole turns, of p + (t - T) f for a time earlier by a fixed latency |
| `AD9910Driver.OffsetMeaning` | artiq/coredevice/ad9910.py:587-602 | the stored offset in each phase mode, and the tracking promise for any clearing time |
| `AD9910Driver.GetMuReadsBackIff` | artiq/coredevice/ad9910.py:290-310 | a stored tone is read back if and only if its frequency word is below 2^31, or phase and amplitude are all ones |
| `AD9910Driver.AD9910.WriteParameters` | artiq/coredevice/ad9910.py:600-610 | one profile, or exactly the registers that the RAM does not drive, and how long it takes with separate durations of 32-bit and 16-bit writes |
| `AD9910Driver.AD9910.SetMu` | artiq/coredevice/ad9910.py:582-617 | the accumulator is cleared exactly if the mode is not continuous and at the stated time, autoclear is never left on, the stored parameters carry the offset of the mode, and in tracking mode the output from then on is within one phase word of p + (t - T) f, late by the time from the computation to IO_UPDATE, with T = 0 if no reference time is given |
| `AD9910Driver.SpiBus.Write` | artiq/coredevice/spi2.py:204-229 | with input enabled, each transfer queues one response |
| `AD9910Driver.SpiBus.Read` | artiq/coredevice/spi2.py:232-241 | takes the oldest response |
| `AD9910Driver.Pipeline` | artiq/coredevice/ad9910.py:366-374 | the first loop keeps at most nine responses in flight and stores the others in order |
| `AD9910Driver.ReadRam` | artiq/coredevice/ad9910.py:353-380 | the k-th response is in place k, at most nine are in flight, and none is left unless the list is empty, when one is |

## Left out

- Unification of `TBuiltin`, `TDelay`, `TSubkernel`, `TFunction` and `TRPC`, and all hashing: their equality is irregular.
- Printing, copying and naming in the IR, and `Constant` operands, which compare by value instead of identity.
- `BasicBlock.erase`: it only combines edits that are here.
- `BasicBlock.set_instructions`: on a block that already has instructions it calls a method `detach` that instructions do not have, and raises; on an empty block it only sets parent links.
- FoldingMeaning.FoldMeaning: division by zero and missing variables have fixed values; `Denote` gives `Max` and `Var` the meaning that `eval` is written for, an empty maximum is 0, and floats are reals.
- The check for messages without a partner, and failures of upload (core.py:217-235).
- EmbeddingMaps.EmbeddingMap.constructor: only objects, subkernels and messages; the tables of strings, types, functions and preallocated exception names are not modelled.
- EmbeddingMaps.EmbeddingMap.StoreSubkernelMessage: does not record the locations of the sender and the receiver.
- SubkernelWorklist.Compile: is what compilation does to the embedding map, with the references of each function given; errors in the compiled code are not modelled.
- EmbeddingMaps.EmbeddingMap.StoreObject: which host objects are false in Python is not modelled object by object; subkernels and messages are true, and any other stored object may be either.
- `store_str`, `store_type` and the exception tables of embedding maps.
- Source parsing, quoting and annotations; the result of checking an attribute is a parameter.
- RpcAcceptance.SentIffAccepted: a float element that is given as an int is refused, where `struct.pack` would convert it; NumPy widths are not told apart; object and keyword values are outside.
- RpcWire.SendHead: the diagnosis of type errors is one failure without its message.
- Exceptions, tracing and the rest of `serve`; sockets, keepalive and closing.
- ADF5356Driver.ADF5356.SetFrequency: requires a positive frequency, since the loop that selects the divider ends exactly on those (`DividerExistsIffPositive`); the VCO band division can exceed its 8-bit field, which then holds its low bits; the loop counter is unbounded, since a double is never so small that it takes more than about 1100 steps.
- ADF5356Driver.ADF5356.Init: what MUXOUT reads is given by parameters; delays are not modelled.
- Field functions of the ADF5356 that the driver does not use, `info`, and the attenuator.
- AD9910Driver.AD9910.SetMu: of CFR1 only the autoclear bit is modelled, and the duration of each register write is a constant.
- Other methods of the AD9910 (RAM profiles, digital ramp, synchronization, tuning), and the remaining device drivers.
- Rounding of floats, real-time delays and RTIO slack.
