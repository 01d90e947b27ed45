# A verified model of SymSan

SymSan runs a program once and records, for every value that depends on the input, a *label*: an entry in a table of
symbolic operations.  Two parsers turn the labels of branch conditions into solving tasks, and a driver hands the tasks
to solvers.  This project models the parts of that pipeline that carry its logic and proves what they keep:

| file | what it models |
|---|---|
| `Labels.dfy`, `LabelValues.dfy` | table entries; the value a label stands for on a given input |
| `LabelTable.dfy`, `LabelMeaning.dfy` | `__taint_union`: canonical operands, simplification, hash-consing, and why none of it changes a value |
| `ShadowMemory.dfy`, `ShadowMeaning.dfy`, `WideLoads.dfy` | splitting a label over shadow bytes and loading it again |
| `ConcurrentTable.dfy` | the lock-free buckets and the bump allocator, under every interleaving |
| `Z3Expr.dfy`, `Z3Serialize.dfy`, `Z3Meaning.dfy`, `Z3Sorts.dfy` | the expressions the Z3 parser builds: which bytes they read, what they mean, which labels get one |
| `Slicing.dfy`, `Z3Parser.dfy`, `IndexMeaning.dfy` | per-byte constraint store, dependency closure, tasks, soundness of slicing, and what a solution does to labels |
| `Ast.dfy`, `Formula.dfy` | node arena, negation normal form, clauses |
| `ScanLabels.dfy`, `FindRoots.dfy`, `Traversal.dfy`, `NodeCount.dfy`, `RgdParser.dfy` | the RGD parser from labels to clauses |
| `Folding.dfy`, `RgdValues.dfy` | what folded operands do to a condition; that its formula speaks about the values of labels |
| `AstSizes.dfy`, `BranchTasks.dfy` | cached AST sizes and concretization; the constraints of a clause |
| `Constraints.dfy`, `ConstraintMeaning.dfy`, `ConstraintValues.dfy`, `SearchTask.dfy` | building one constraint in its arena; what its tree computes and that this is the label's value; the indexes of a task |
| `UnionFind.dfy`, `ConstraintIndex.dfy` | union-find with member rings, and the constraint buckets built on it |
| `Driver.dfy` | which solver is tried on which task |
| `ArgumentSlots.dfy` | where caller and callee keep the shadow of an argument |

The main results:

- Writing a model of a sliced task over the original input flips the branch and keeps every recorded constraint, also
  those left out of the slice (`Z3Parser.Parser.SolutionsAreRight`, `Slicing.SlicingSound`); in terms of labels, the
  condition gets its other value, or the index the value asked for, and every recorded label keeps its own
  (`Z3Parser.Parser.SolutionsFlipLabels`, `IndexMeaning.SolutionsSetIndex`, `IndexMeaning.SolutionsSetAddress`).  This
  rests on recorded dependencies being exactly the bytes read (`Z3Serialize.TranslateReads`), on the worklist computing the
  least closed set (`Slicing.CollectMoreDeps`) and on the store staying a partition in every reachable state
  (`Slicing.SavedPartition`).
- With the compiler's sizes, the Z3 parser makes the task of a branch if and only if every label up to the condition is
  accepted, the condition is a truth value and every byte that can be reached from it lies in the inputs
  (`Z3Parser.Parser.ParseCond`, `Z3Sorts.TranslatesIff`); side constraints and indexes have conditions of the same kind.
- The expression of every label has the label's value (`Z3Meaning.TranslateMeaning`), and every label has the value of the
  operation it was made for, whatever was reordered, erased, simplified or shared (`LabelMeaning.UnionMeans`).
- Some clause built for a branch is satisfied exactly by the values under which the condition takes the other outcome
  (`RgdParser.Parser.ParseCond`, `RgdValues.ClausesFlipLabel`), through the explicit-stack traversal, the in-place normal
  form and the product of clauses.  The traversal gives up on a tree-shaped condition exactly when it cannot be compiled or
  has more labels than the arena has nodes (`RgdParser.Parser.FindRoots`); which conditions can be compiled is decided by
  the operators and the counts of nested comparisons (`FindRoots.CompilesIff`).
- In every reachable state of the RGD parser the cached size of a comparison in a clause is enough for its tree, if its
  operands hold no comparisons and their size fits 32 bits, unless it was reduced twice (`RgdParser.Parser.ParseCond`,
  `AstSizes.LeafRoom`).  So every comparison that can be expressed gets its constraint (`BranchTasks.ConstructTask`), and
  that constraint, evaluated by the kinds of its nodes, has the value of its label (`ConstraintValues.ConstraintMeans`).
- Storing a label and loading it again gives the same label (`ShadowMemory.StoreThenLoad`).  For a load with at least one
  symbolic byte, and fewer than 32 concrete bytes in front of the first one, it is decided exactly whether its label stands
  for the little-endian bytes: on the shape path if and only if every byte equals the input byte it is taken for, otherwise
  if and only if the concrete bytes in front are zero (`ShadowMeaning.LoadIsExact`).
- No interleaving loses a published entry, and a lookup that begins after an insert has returned finds one
  (`ConcurrentTable.RunKeeps`, `ConcurrentTable.InsertIsKept`, `ConcurrentTable.LookupFinds`,
  `ConcurrentTable.InsertThenLookup`).
- Over every run of the driver the next attempt is decided: the next solver on the same task, unless there is none, the
  answer was unsat, an entry was validated or the mutator restarted; then the next task (`Driver.NextIsTried`).  If none of
  that happens every solver is tried on every task (`Driver.NothingIsGivenUp`).
- Union-find is exact for the equivalence closure of its merges, in at most log2(size) steps (`UnionFind.UnionFind.Find`,
  `UnionFind.UnionFind.GetSet`).

Modelling choices.  Opcodes are constructors of a datatype; LLVM opcodes without a case of their own are `Other`.  The
32-bit mixing function, the bit-vector operators that are not simplified, and the solvers' answers are parameters.
Exceptions and failed assertions are error results.  Machine widths are written out where they matter (8-bit counters,
16-bit and 32-bit sizes, 64-bit constants).

## Where the code and the expectation part

Each of these is stated as it is in the code, with the exact condition under which the expected property holds.

- `deps_cache_` gets its entry before an expression can fail, so a label that failed for want of memcmp content and is
  serialized again after the content arrived gets an empty dependency set (`Z3Parser.LateContentLosesDependencies`).
  Dependencies stay exact if and only if the content leads to no expression or the bytes compared with it depend on no
  input (`Z3Parser.LateContentIsExact`, `Z3Parser.Parser.RecordMemcmp`); even then all later sets are filed one label too
  high (`Z3Parser.LateContentShifts`).
- A refused label leaves `ast_size_cache` one entry longer than the other caches (`RgdParser.Parser.ScanLabels`).  From
  then on no label is scanned again: asking for the same label once more is answered yes (`RgdParser.RefusedThenAccepted`),
  and the next label that is accepted is looked for past the end of a cache (`RgdParser.Parser.ScanAgain`).
- `get_set` clears its output, so the search for related constraints keeps the class of the last byte only; when that
  loses nothing is decided exactly (`ConstraintIndex.Index.CollectIsComplete`); `ConstraintIndex.CollectMisses` is a case in
  which it loses a constraint.
- `set_boolvalue` stores the complement, so folded operands count inverted: a conjunct that is never true is dropped
  (`Folding.FoldedConjunctIsLost`).  A connective is right if and only if a negation has no folded operand, an exclusive or
  has none or two, and next to one folded operand of a conjunction or disjunction the other one has the deciding value, or
  of two folded ones the values differ (`Folding.ConnectiveIsExact`).  A boolean compared with a constant is handled
  rightly for both values if and only if the constant is 0 or 1 (`FindRoots.BoolCompareExact`); the exact conditions for
  single values, folded booleans and comparisons folded at recorded operands are in `Folding.CompareIsExact`.
- Truncating a sign-extended compare back to the compare's operand size answers the compare itself; wrong exactly when the
  compare is true and the size is not 1 (`LabelMeaning.UndoIsRight`, `LabelMeaning.TruncatedCompare`).
- Storing a label for all of an 8-bit label and loading it gives the latter (`ShadowMemory.StoreThenLoad`).
- The shape test of a load looks at `op1` only, so other bytes are taken for input (`ShadowMeaning.ImpostorIsLoaded`), even
  a concrete one in front, as the entry of the constant label looks like input byte 0 (`ShadowMeaning.ConstantIsLoaded`);
  `ShadowMeaning.LoadIsExact` says exactly when that does no harm.
- Concretizing the same comparison twice makes its cached size too small (`AstSizes.SecondTimeExample`), unless it wraps
  around (`AstSizes.SecondReduction`, `AstSizes.SecondTimeBreaks`); a size that wrapped is passed on as a negative number,
  and asking for that much memory throws an exception that is not caught (`Constraints.ParseConstraint`).
- A load cuts its last label to the bytes that are loaded, but not its first: a first label wider than the load is returned
  whole, which is right if and only if its value fits (`WideLoads.WideFirst`).
- An error answer while a task is fresh makes the driver call the same solver again (`Driver.RepeatsIff`,
  `Driver.StuckIff`, `Driver.ErrorRepeats`).
- memcmp of a label with itself records its two pieces in order, so operand order shows exactly there
  (`LabelTable.OrderOfPieces`).

## Model

| member | source | states |
|---|---|---|
| `LabelTable.StepKeeps` | runtime/dfsan/dfsan.cpp:186-356 | every call keeps entries of unions distinct, operands before results, and only adds to the table |
| `LabelTable.RunKeeps` | runtime/dfsan/dfsan.cpp:186-356 | hash-consing over all runs: no two labels made by unions have the same entry, and every label exceeds its operands |
| `LabelTable.ScanUnique` | runtime/dfsan/union_util.cpp:41-50 | an entry made by a union belongs to exactly one label |
| `LabelTable.PrepareStable` | runtime/dfsan/dfsan.cpp:190-268 | what simplification answers does not change when the table grows |
| `LabelTable.UnionIsStable` | runtime/dfsan/dfsan.cpp:270-286 | the same call gives the same label for ever after, whatever happens in between, and then adds nothing |
| `LabelTable.OrderIsIrrelevant` | runtime/dfsan/dfsan.cpp:190-194 | exchanging the operands of not, and, or, xor, add, mul and memcmp gives the same label, except when one buffer is compared with itself |
| `LabelTable.OrderOfPieces` | runtime/dfsan/dfsan.cpp:220-225 | in that case two different labels are made whenever the recorded pieces differ |
| `LabelTable.ConcreteIsIrrelevant` | runtime/dfsan/dfsan.cpp:216-231 | the label does not depend on what a symbolic operand happened to be, for operators other than compares, atoi, memcmp and bounds |
| `LabelTable.LabelIsMade` | runtime/dfsan/dfsan.cpp:216-356 | every operation on a symbolic operand, memcmp included, that has no shorter form gets a label that records its operands, in order if they may be exchanged, with concrete values for bounds, compares, atoi and memcmp only |
| `LabelTable.UnionSucceeds` | runtime/dfsan/dfsan.cpp:348-356 | while there is room in the table every call is answered, with a label in use or the uninitialised one |
| `LabelTable.NeutralConstants` | runtime/dfsan/dfsan.cpp:233-250 | and, or, xor, add and mul with 0, and and or with all ones, need no entry and give the label or the constant 0 as they should, whichever side the constant is on |
| `LabelTable.NeutralOperands` | runtime/dfsan/dfsan.cpp:240-268 | neither do a subtraction of 0, shifts by 0, a shift of 0 to the left, and the exclusive or of a label with itself |
| `LabelTable.XorWithOne` | runtime/dfsan/dfsan.cpp:246-250 | the exclusive or of one bit with 1 is recorded as a negation |
| `LabelTable.ExtendThenTruncate` | runtime/dfsan/dfsan.cpp:257-263 | extending a label and truncating the result to its recorded size gives the label back |
| `LabelTable.SpecialOperands` | runtime/dfsan/dfsan.cpp:195-213 | two constants give 0, an uninitialised operand the uninitialised label, bounds 0 except that a cast passes them on |
| `LabelTable.Table.constructor` | runtime/dfsan/union_hashtable.cpp:7-12 | a table with the constant label alone satisfies the invariant |
| `LabelTable.Table.Lookup` | runtime/dfsan/union_hashtable.cpp:35-46 | searching one bucket agrees with a scan of the whole table |
| `LabelTable.Table.Append` | runtime/dfsan/union_hashtable.cpp:19-33 | filing a new entry keeps every entry findable under its hash |
| `LabelTable.Table.CreateLabel` | runtime/dfsan/dfsan.cpp:794-805 | an input byte gets the next label, unless labels are exhausted |
| `LabelTable.Table.Union` | runtime/dfsan/dfsan.cpp:186-356 | the label and the table are those of the search through all entries, and the invariant is kept |
| `LabelMeaning.ValueRange` | runtime/dfsan/dfsan.h:46-54 | the value of a label fits its width |
| `LabelMeaning.ValuePrefix` | runtime/dfsan/dfsan.cpp:348-356 | values and widths of labels never change when labels are added |
| `LabelMeaning.ErasedMeans` | runtime/dfsan/dfsan.cpp:226-231 | erasing concrete values of symbolic operands changes neither value nor width |
| `LabelMeaning.ArrangedMeans` | runtime/dfsan/dfsan.cpp:190-194 | exchanging operands changes neither value nor width |
| `LabelMeaning.FirstValue` | runtime/dfsan/dfsan.cpp:233-252 | the value under each rule for a zero or all-ones first operand, up to 64 bits |
| `LabelMeaning.SecondValue` | runtime/dfsan/dfsan.cpp:253-268 | the value under the rules for a zero second operand and for x xor x |
| `LabelMeaning.MachineSimplify` | runtime/dfsan/dfsan.cpp:233-268 | every simplification of arithmetic answers a label or entry with the value and width of the full operation, or 0 |
| `LabelMeaning.UndoIsRight` | runtime/dfsan/dfsan.cpp:259-264 | a truncation that undoes an extension keeps the value if and only if it is not of a true compare extended with its sign |
| `LabelMeaning.TruncatedCompare` | runtime/dfsan/dfsan.cpp:259-264 | a concrete table on which that answer is 1 where 255 is meant |
| `LabelMeaning.EntryMeans` | runtime/dfsan/dfsan.cpp:281-286 | a shared entry has the value of a new one |
| `LabelMeaning.UnionMeans` | runtime/dfsan/dfsan.cpp:186-356 | a returned label has the value and width of the operation asked for, on every input |
| `LabelMeaning.ZeroIsConstant` | runtime/dfsan/dfsan.cpp:195-268 | when 0 is returned the operation has the same value for all inputs |
| `LabelMeaning.CreateMeans` | runtime/dfsan/dfsan.cpp:794-805 | a label created for an input byte stands for that byte, on 8 bits |
| `LabelMeaning.ProperStart` | runtime/dfsan/dfsan.cpp:1243-1245 | the table of the constant label alone is well sized, so runs start from it |
| `LabelMeaning.StepProper` | runtime/dfsan/dfsan.cpp:348-356 | calls whose casts, reads and joins have the sizes their operands make them, and all calls of other operators, memcmp and bounds included, keep recorded sizes equal to widths, compares excepted |
| `LabelMeaning.RunProper` | runtime/dfsan/dfsan.cpp:186-356 | the same over every run |
| `ShadowMemory.StoreThenLoad` | runtime/dfsan/dfsan.cpp:384-534 | for every label of n bytes, storing to n slots and loading them gives the same label and adds nothing; the one exception is exact |
| `ShadowMemory.StoreSucceeds` | runtime/dfsan/dfsan.cpp:485-534 | a label can be stored while there is room for one label a byte |
| `ShadowMemory.LoadSucceeds` | runtime/dfsan/dfsan.cpp:384-483 | bytes can be loaded while there is room, if labels have at least 8 bits and there are more labels than bytes |
| `ShadowMemory.UninitialisedIsLoaded` | runtime/dfsan/dfsan.cpp:384-483 | a load that covers an uninitialised slot is uninitialised, on every path |
| `ShadowMemory.SignedByteIs` | runtime/dfsan/dfsan.cpp:474-479 | a concrete byte is recorded as the signed number it is |
| `ShadowMemory.StoreLoadInput` | runtime/dfsan/dfsan.cpp:413-434 | a load of consecutive input labels is found again by hash-consing |
| `ShadowMemory.StoreLoadParts` | runtime/dfsan/dfsan.cpp:436-455 | slots extracted from one label give that label |
| `ShadowMemory.StoreLoadByte` | runtime/dfsan/dfsan.cpp:510-515 | a single byte, with the exception |
| `ShadowMemory.SplitParts` | runtime/dfsan/dfsan.cpp:530-533 | the default path stores one extract per byte, in order, and keeps the table well made |
| `ShadowMemory.Shadow.UnionStore` | runtime/dfsan/dfsan.cpp:486-534 | writes exactly the specified labels to exactly the n slots, or reports the death of the process |
| `ShadowMemory.Shadow.Fill` | runtime/dfsan/dfsan.cpp:498-508 | one label in all slots, nothing else changed |
| `ShadowMemory.Shadow.Spread` | runtime/dfsan/dfsan.cpp:517-528 | consecutive labels in the slots, nothing else changed |
| `ShadowMemory.Shadow.Split` | runtime/dfsan/dfsan.cpp:530-533 | the extracts of a label in the slots, nothing else changed |
| `ShadowMemory.Shadow.CheckSame` | runtime/dfsan/dfsan.cpp:400-411 | whether all slots hold the first label, with the uninitialised case |
| `ShadowMemory.Shadow.CheckShape` | runtime/dfsan/dfsan.cpp:413-429 | whether op1 fields are consecutive, with the uninitialised case |
| `ShadowMemory.Shadow.CheckParts` | runtime/dfsan/dfsan.cpp:439-450 | how many bits of the parent the slots continue |
| `ShadowMemory.Shadow.SlowLoad` | runtime/dfsan/dfsan.cpp:457-482 | the loop computes its recursive specification, table included |
| `ShadowMemory.Shadow.UnionLoad` | runtime/dfsan/dfsan.cpp:384-483 | the label and the table of the specification, on every path |
| `ShadowMemory.Shadow.StoreAndLoad` | runtime/dfsan/dfsan.cpp:384-534 | a label written to memory and read back comes back, with the one exception, and no other slot changes |
| `ShadowMeaning.LoadMeans` | runtime/dfsan/dfsan.cpp:413-483 | the shape path gives the value of the input bytes it names; the extract and slow paths give the value of the loaded bytes, first byte lowest, leading concrete bytes read as zero |
| `ShadowMeaning.LoadIsExact` | runtime/dfsan/dfsan.cpp:413-483 | the value is that of the bytes if and only if, on the shape path, every byte equals the input byte it is taken for, and otherwise the leading concrete bytes are zero |
| `ShadowMeaning.SlowMeans` | runtime/dfsan/dfsan.cpp:457-482 | after every round the label stands for the bytes so far |
| `WideLoads.SlowMeansWide` | runtime/dfsan/dfsan.cpp:456-483 | over slots with labels of several bytes, every round of the slow path adds the next label or concrete byte on top, the last label cut to the bytes loaded |
| `WideLoads.WideLoadMeans` | runtime/dfsan/dfsan.cpp:384-483 | a load that begins with such a label, if it fits, has the value of all pieces, the first one lowest |
| `WideLoads.WideFirst` | runtime/dfsan/dfsan.cpp:459-483 | a first label wider than the load is returned whole, which is exact if and only if its value fits |
| `ShadowMeaning.LoadRight` | runtime/dfsan/dfsan.cpp:430-434 | a Load label has the value of the consecutive input bytes |
| `ShadowMeaning.ParentRight` | runtime/dfsan/dfsan.cpp:436-455 | slots extracted from a label amount to its value |
| `ShadowMeaning.ImpostorIsLoaded` | runtime/dfsan/dfsan.cpp:418-427 | a concrete table on which a non-input byte is taken for input and the load has the wrong value |
| `ShadowMeaning.ConstantIsLoaded` | runtime/dfsan/dfsan.cpp:413-434 | a concrete zero in front of input byte 1 is loaded as input byte 0 |
| `ConcurrentTable.StepKeeps` | runtime/dfsan/union_hashtable.cpp:19-46 | one atomic step of any thread keeps buckets finite chains without repeats, unpublished entries private, and every published entry published and unchanged |
| `ConcurrentTable.PushKeeps` | runtime/dfsan/union_hashtable.cpp:25-32 | a successful exchange puts the entry in front of the unchanged chain |
| `ConcurrentTable.Allocated` | runtime/dfsan/taint_allocator.cpp:26-37 | allocations are pairwise disjoint and end before the end of the area |
| `ConcurrentTable.RunKeeps` | runtime/dfsan/union_hashtable.cpp:19-46 | the same for every interleaving of any number of threads |
| `ConcurrentTable.FailureIsProgress` | runtime/dfsan/union_hashtable.cpp:25-32 | an exchange fails only if another entry was published in the bucket since its head was read |
| `ConcurrentTable.InitInv` | runtime/dfsan/union_hashtable.cpp:7-12 | the empty table satisfies the invariant |
| `ConcurrentTable.InsertIsKept` | runtime/dfsan/union_hashtable.cpp:19-33 | a thread lets go of its entry only by publishing it with its key and label, and it stays published in every later state |
| `ConcurrentTable.LookupFinds` | runtime/dfsan/union_hashtable.cpp:35-46 | a lookup that a thread begins in a given state, whatever its last call was, answers with a published entry of its key, and finds one if one was published in that state |
| `ConcurrentTable.LaterLookupFinds` | runtime/dfsan/union_hashtable.cpp:35-46 | the same for a lookup that a thread begins later |
| `ConcurrentTable.InsertThenLookup` | runtime/dfsan/union_hashtable.cpp:19-46 | over any interleaving, a lookup begun after an insert of an equal key has returned finds an entry |
| `ConcurrentTable.InsertAlone` | runtime/dfsan/union_hashtable.cpp:19-33 | a thread that is left alone publishes its entry in four steps |
| `ConcurrentTable.LookupEnds` | runtime/dfsan/union_hashtable.cpp:35-46 | lookups are wait-free: no more steps than the bucket had entries without an answer, whatever the other threads do |
| `ConcurrentTable.DiesIff` | runtime/dfsan/taint_allocator.cpp:26-37 | a step ends the process exactly when an insert finds no room |
| `Z3Expr.ReadsSuffice` | solvers/z3-ts.cpp:231-242 | the value of an expression depends on the bytes it mentions only |
| `Z3Serialize.TranslateReads` | solvers/z3-ts.cpp:213-568 | the dependencies recorded for a label are exactly the bytes its expression reads |
| `Z3Serialize.RoundOk` | solvers/z3-ts.cpp:213-227 | a round of serialize keeps that for all cached labels |
| `Z3Meaning.TranslateMeaning` | solvers/z3-ts.cpp:213-568 | the expression built for a label is well sorted and has the label's width and value, if those before it have |
| `Z3Meaning.RoundMeans` | solvers/z3-ts.cpp:213-227 | so has every cached expression after the round |
| `Z3Meaning.RoundsMean` | solvers/z3-ts.cpp:197-571 | and after any number of rounds: throughout a run every cached expression has its label's value |
| `Z3Meaning.EvalRange` | solvers/z3-ts.cpp:213-568 | the value of a well-sorted expression fits its sort |
| `Z3Meaning.FitMeaning` | solvers/z3-ts.cpp:396-406 | fitting an operand cuts its value to the operator's width |
| `Z3Meaning.JoinMeans` | solvers/z3-ts.cpp:386-561 | the first operand of a Concat is its low part, constants filling what the other operand leaves |
| `Z3Meaning.MemcmpMeaning` | solvers/z3-ts.cpp:329-342 | a memcmp label is 0 exactly when the two buffers are equal, with recorded content for a constant buffer |
| `Z3Sorts.TranslatesIff` | solvers/z3-ts.cpp:213-568 | given the labels before it, serialize handles a label if and only if its operands are truth values or bit-vectors as its operator takes them, with recorded content for a constant buffer; the sort of its expression is that of the label |
| `Z3Sorts.DepsAre` | solvers/z3-ts.cpp:219-568 | the bytes recorded for a label are those that can be reached from it |
| `Z3Sorts.RoundEntries` | solvers/z3-ts.cpp:213-568 | every cached label is accepted, has an expression exactly if it stands for a value, and the next one is cached if and only if it is accepted |
| `Z3Sorts.Reached` | solvers/z3-ts.cpp:213-571 | everything up to a cached label was accepted |
| `Z3Parser.LateContentLosesDependencies` | solvers/z3-ts.cpp:213-342 | a run in which a label ends up with an expression that reads a byte and an empty dependency set |
| `Z3Parser.LateContentIsExact` | solvers/z3-ts.cpp:213-342 | content that comes after the failure keeps dependencies exact if and only if it leads to no expression or the other operand depends on no input |
| `Z3Parser.LateContentShifts` | solvers/z3-ts.cpp:213-342 | even then the next label is exact if and only if it has no expression or depends on no input either, as all later sets are filed one label too high |
| `Z3Parser.Parser.SerializeNext` | solvers/z3-ts.cpp:213-568 | one round caches exactly the specified entry and dependencies, also when it throws, keeps dependencies exact, and succeeds if and only if the label is accepted |
| `Z3Parser.Parser.Serialize` | solvers/z3-ts.cpp:197-571 | with the compiler's sizes it succeeds if and only if every label up to the given one is accepted and that one stands for a value; the returned dependencies are exactly the bytes that can be reached from the label and those its expression reads |
| `Z3Parser.Parser.RecordMemcmp` | include/parse.h:76-81 | the caches stay valid unless the content is for a label that failed and now leads to an expression; in that case dependencies stay exact if and only if there are none to lose |
| `Slicing.CollectMoreDeps` | solvers/z3-ts.cpp:820-836 | the worklist ends with the least closed superset, or there is a byte out of bounds that belongs to every closed superset |
| `Slicing.ClosureUnique` | solvers/z3-ts.cpp:820-836 | there is only one least closed superset, so the order of the worklist does not matter |
| `Slicing.SavedPartition` | solvers/z3-ts.cpp:803-818 | saving under a closed set keeps the per-byte sets a partition |
| `Slicing.OutOfBounds` | solvers/z3-ts.cpp:820-836 | while stored bytes are in bounds, only a byte of the given set itself can be out of bounds |
| `Slicing.SavedRecorded` | solvers/z3-ts.cpp:803-818 | every saved constraint stays filed under all the bytes it reads |
| `Slicing.AddNestedConstraints` | solvers/z3-ts.cpp:838-853 | all constraints of the given bytes, each once |
| `Slicing.SliceSeparates` | solvers/z3-ts.cpp:604-617 | a goal with all constraints of its closed set shares no byte with any constraint left out |
| `Slicing.SlicingSound` | solvers/z3-ts.cpp:604-617 | a model of the slice written over an input that follows the path satisfies the slice and the whole path |
| `Z3Parser.Parser.constructor` | solvers/z3-ts.cpp:78-110 | the empty caches and store satisfy the invariant |
| `Z3Parser.Parser.SaveConstraint` | solvers/z3-ts.cpp:803-818 | the store becomes the specified one, and the invariant over store, path and tasks is kept |
| `Z3Parser.Parser.MakeSlice` | solvers/z3-ts.cpp:604-612 | the goal followed by exactly the constraints of its bytes |
| `Z3Parser.Parser.ParseCond` | solvers/z3-ts.cpp:573-627 | succeeds if and only if the condition is handled, is a truth value and reads bytes of the inputs only, and throws exactly if only the last fails; then one new task, exactly the slice that flips the branch, made on the path so far, with all waiting tasks as they were, and the branch saved if asked; nothing on failure |
| `Z3Parser.Parser.AddConstraints` | solvers/z3-ts.cpp:729-761 | succeeds if and only if the label is handled, reads bytes of the inputs only and is a truth value or as wide as its entry says; then the label's value is saved; nothing on failure |
| `Z3Parser.Parser.ConstructIndexTasks` | solvers/z3-ts.cpp:629-649 | one task for every other index value, in order, each the slice of its goal; fails if and only if there is such a value and the index is not of 64 bits |
| `Z3Parser.IndicesAre` | solvers/z3-ts.cpp:637-639 | the values are exactly those reached in steps from the lower bound, below the upper one, without the current one |
| `Z3Parser.IndicesIncrease` | solvers/z3-ts.cpp:637-639 | they come in increasing order |
| `Z3Parser.Parser.EnumerateIndices` | solvers/z3-ts.cpp:692-715 | every other index below a known number of elements, or every address in a buffer of fixed size, has its task, otherwise there is none; fails if and only if there is something to try and the index is not of 64 bits |
| `Z3Parser.Parser.TryIndices` | solvers/z3-ts.cpp:692-718 | the enumeration and then the constraint on the index, if and only if the index has the expected width, of at most 64 bits where there is something to try |
| `Z3Parser.Parser.ParseGep` | solvers/z3-ts.cpp:651-727 | exactly those slices, made on the path so far, and the index saved, if and only if the index is handled, reads bytes of the inputs only, is a bit-vector as wide as its entry says, and of at most 64 bits where there is something to try; nothing saved on failure, nothing at all when indexes are not enumerated |
| `Z3Parser.Parser.SolveTask` | solvers/z3-ts.cpp:855-920 | the status for every pair of answers, both directions, and which model is used; a task is handed out once |
| `Z3Parser.Parser.SolutionsAreRight` | solvers/z3-ts.cpp:855-920 | a solution flips the branch; with nested constraints satisfied it also follows the whole path before it |
| `Z3Parser.Parser.SolutionsKeepLabels` | solvers/z3-ts.cpp:855-920 | on the input patched with a model of a task its goal is true, and every label with a recorded constraint keeps its value |
| `Z3Parser.Parser.SolutionsFlipLabels` | solvers/z3-ts.cpp:573-627 | for a branch task, the condition's label has the opposite value there |
| `IndexMeaning.SolutionsSetIndex` | solvers/z3-ts.cpp:629-649 | for an index task over a number of elements, the index label has the value asked for |
| `IndexMeaning.SolutionsSetAddress` | solvers/z3-ts.cpp:692-715 | for an index task over a buffer, the address computed from the index label is the one asked for |
| `IndexMeaning.AddressMeans` | solvers/z3-ts.cpp:692-715 | the address expression has the value of index times element size plus offset plus pointer, on 64 bits |
| `ScanLabels.FlatInjective` | include/parse-rgd.h:61-67 | flattening numbers the bytes of all inputs without collision and below the total size |
| `ScanLabels.InputToDepIdx` | include/parse-rgd.h:61-67 | the loop computes the flattened index |
| `ScanLabels.ReachInInputs` | parsers/rgd-parser.cpp:1076-1117 | every byte reachable from accepted labels lies in an input |
| `ScanLabels.AcceptableIff` | parsers/rgd-parser.cpp:1076-1117 | a label is refused if and only if it is a read of at least one byte and some byte it reads lies in no input |
| `ScanLabels.LoadEntry` | parsers/rgd-parser.cpp:1102-1131 | the bits set for a Load are the flattened bytes it reads |
| `ScanLabels.OperatorEntry` | parsers/rgd-parser.cpp:1132-1148 | the union of the operands' bits is the flattened set of reachable bytes; the count is exact modulo 256 |
| `RgdParser.Parser.ScanOne` | parsers/rgd-parser.cpp:1062-1150 | one round keeps bitsets and counts equal to their recursive definitions, caches the specified size, and refuses exactly the labels that read outside the inputs |
| `RgdParser.Parser.ScanLabels` | parsers/rgd-parser.cpp:1058-1162 | succeeds if and only if no label on the way reads outside the inputs; the caches then cover the goal; otherwise the first such label is the one behind the caches |
| `RgdParser.Parser.ScanAgain` | parsers/rgd-parser.cpp:1058-1162 | after a refusal: yes without doing anything for a goal up to the refused label; otherwise the next label is refused too or looked for past the end of the cache |
| `RgdParser.RefusedThenAccepted` | parsers/rgd-parser.cpp:1058-1162 | a table on which the same question is first answered no and then yes |
| `RgdParser.Parser.NoWrapIsOk` | parsers/rgd-parser.cpp:1142-1148 | below 256 nested comparisons the counts mean what find_roots takes them for |
| `FindRoots.StripZext` | parsers/rgd-parser.cpp:568-582 | the loop computes the recursive specification |
| `FindRoots.StripFromValue` | parsers/rgd-parser.cpp:568-582 | the stripped label has the same value |
| `FindRoots.StripIsFirst` | parsers/rgd-parser.cpp:568-582 | under zero extensions only, the first one-bit label or comparison is what is left, and without one the label itself |
| `FindRoots.SimplifyMeaning` | parsers/rgd-parser.cpp:648-1039 | the post-order step on a label gives a tree that is true exactly when the label's value is not zero |
| `FindRoots.CompileMeaning` | parsers/rgd-parser.cpp:585-1055 | the formula is true exactly when the condition's value is not zero, on conditions that fold to no constant |
| `FindRoots.CompileIsFormula` | parsers/rgd-parser.cpp:585-1055 | it consists of LAnd, LOr and LNot over comparison leaves if no exclusive or is involved |
| `FindRoots.CompilesIff` | parsers/rgd-parser.cpp:648-1039 | a condition has a formula if and only if its connectives have one bit and conditions for operands, or the constant 0 or 1 in front, its memcmps hold no comparison, and nothing but these and compares is met |
| `FindRoots.FoldsIff` | parsers/rgd-parser.cpp:893-937 | a comparison is folded if and only if no operand is symbolic, never concretized and small enough |
| `FindRoots.BoolCompareExact` | parsers/rgd-parser.cpp:949-1012 | the rule for a boolean compared with k is right for both values of the boolean if and only if k is 0 or 1 |
| `Folding.JunctionIsExact` | parsers/rgd-parser.cpp:669-821 | a conjunction or disjunction over right operands is right if and only if next to a folded operand the other one has the deciding value, or two folded ones differ |
| `Folding.XorIsExact` | parsers/rgd-parser.cpp:822-896 | an exclusive or is right if and only if both operands are folded or none is |
| `Folding.ConnectiveIsExact` | parsers/rgd-parser.cpp:648-896 | the exact condition for every connective of a condition |
| `Folding.BoolCompareIsExact` | parsers/rgd-parser.cpp:949-1012 | the exact condition for a boolean, folded or not, compared with any constant or label |
| `Folding.CompareIsExact` | parsers/rgd-parser.cpp:897-1018 | the exact condition for every comparison; what is folded at recorded operands is right if and only if the label happens to have that value |
| `Folding.FoldedNegation` | parsers/rgd-parser.cpp:1200-1276 | the negation of a folded boolean has no normal form for true, and for false it is a literal of no label |
| `Folding.CompileIsTruthful` | parsers/rgd-parser.cpp:585-1055 | a condition whose nodes all meet these conditions is compiled to its truth, or to the constant it is |
| `Folding.FoldedConjunctIsLost` | include/ast.h:212-212 | a label table whose conjunction, never true, is compiled to its other conjunct |
| `RgdValues.ValuesRespect` | runtime/dfsan/dfsan.h:46-54 | the values of labels are a valuation as find_roots takes it |
| `RgdValues.FormulaMeans` | parsers/rgd-parser.cpp:585-1055 | the formula is true on exactly the inputs on which the condition's label is not zero |
| `RgdValues.ClausesFlipLabel` | parsers/rgd-parser.cpp:1306-1341 | the clauses are satisfied by exactly the inputs that give the label the other truth value |
| `Traversal.StepEnter` | parsers/rgd-parser.cpp:602-613 | pushing a label keeps the stack invariant |
| `Traversal.StepLeft` | parsers/rgd-parser.cpp:614-629 | going down to the left operand keeps it |
| `Traversal.StepRight` | parsers/rgd-parser.cpp:630-643 | going over to the right operand keeps it |
| `Traversal.StepPop` | parsers/rgd-parser.cpp:1041-1046 | leaving a finished label keeps it, and the parent's operand is finished |
| `NodeCount.CountEnd` | parsers/rgd-parser.cpp:602-643 | at the end there is one node for every label of a tree-shaped condition |
| `NodeCount.NoRoom` | parsers/rgd-parser.cpp:617-640 | when there is no node for a new label, the condition has more labels than nodes |
| `NodeCount.FailureSpreads` | parsers/rgd-parser.cpp:648-1039 | a label that cannot be compiled spoils every condition it is part of |
| `RgdParser.RewriteMeaning` | parsers/rgd-parser.cpp:648-1039 | the in-place rewrite of a node turns its children's trees into the specified tree |
| `RgdParser.Parser.FinishLabel` | parsers/rgd-parser.cpp:648-1046 | the post-order step in the arena is the decision applied to the node; sizes and concretization change for an oversized comparison only, as specified; sizes stay those of the labels' trees |
| `RgdParser.Parser.FindRoots` | parsers/rgd-parser.cpp:585-1055 | the traversal ends, and on a tree-shaped condition it fails exactly when the condition cannot be compiled or outgrows the arena; otherwise the arena holds the formula that recursion over the labels defines |
| `RgdParser.Parser.GetRootExpr` | parsers/rgd-parser.cpp:1164-1197 | null exactly for an invalid label, a label that reads outside the inputs, or a failed find_roots, decided for tree-shaped conditions; cached formulas stay as they were built |
| `RgdParser.Parser.ParseCond` | parsers/rgd-parser.cpp:1306-1341 | some clause is satisfied exactly by the values under which the condition evaluates to the opposite of the recorded result; on every tree-shaped condition the outcome is decided: -1 if it has no formula or no normal form, no clauses if it is a constant, and otherwise exactly the clauses of the other branch; every literal is a comparison whose cached size is enough for its tree, unless reduced twice |
| `RgdParser.ClausesFor` | parsers/rgd-parser.cpp:1322-1338 | copy, normal form and clauses, failing exactly when the normal form does |
| `RgdParser.ClausesAreExact` | parsers/rgd-parser.cpp:1322-1341 | the exactness of the clauses of a compiled condition |
| `Ast.Arena.AddChild` | include/ast.h:187-196 | null exactly when the arena is full or the node has two children; otherwise one linked empty node more |
| `Ast.Arena.CopyTree` | include/ast.h:229-256 | a deep copy is the same tree, changes nothing before it, and never outgrows the capacity |
| `Formula.NegateCmpNegates` | include/ast.h:121-135 | negation is an involution and turns every comparison into its opposite |
| `Formula.NnfMeaning` | parsers/rgd-parser.cpp:1200-1276 | never fails on a formula; the result holds exactly when the formula has the expected value |
| `Formula.DnfMeaning` | parsers/rgd-parser.cpp:1279-1304 | some clause is satisfied exactly when the normal form holds |
| `Formula.ClausesMeaning` | parsers/rgd-parser.cpp:1200-1304 | some clause is satisfied exactly when the formula has the expected value |
| `Formula.ClauseLeaves` | parsers/rgd-parser.cpp:1200-1304 | clauses mention only labels of the formula |
| `Formula.ToNnf` | parsers/rgd-parser.cpp:1200-1276 | the in-place method computes the specification and changes no node outside the subtree |
| `Formula.ToDnf` | parsers/rgd-parser.cpp:1279-1304 | appends exactly the clauses of the node |
| `Formula.Multiply` | parsers/rgd-parser.cpp:1280-1294 | every clause of one side joined with every clause of the other, in order |
| `Constraints.MapArg` | parsers/rgd-parser.cpp:137-161 | every byte read has an argument of its own, every symbolic argument is one byte's, constants are counted |
| `Constraints.MapFirstValues` | parsers/rgd-parser.cpp:137-161 | every new byte holds the input's value, and the first byte of a read its length as shape |
| `Constraints.BuildableIff` | parsers/rgd-parser.cpp:41-76 | a tree is built for exactly the labels all of whose operators are in the table of kinds, with recorded content for constant buffers and no Concat of two constants |
| `AstSizes.NewSize` | parsers/rgd-parser.cpp:1062-1136 | a label scanned without comparisons below it gets exactly the size of its tree, unless that does not fit 32 bits |
| `AstSizes.ScanKeeps` | parsers/rgd-parser.cpp:1062-1136 | scanning a label keeps all cached sizes as described |
| `AstSizes.ReduceKeeps` | parsers/rgd-parser.cpp:900-927 | reducing an oversized comparison keeps them: sizes are exact after the first reduction, and a second one happens only when the first left the comparison over the limit |
| `AstSizes.LeafRoom` | parsers/rgd-parser.cpp:515-526 | the cached size of a comparison that is not folded is enough for its tree, unless it was reduced twice |
| `AstSizes.NeverTwice` | parsers/rgd-parser.cpp:900-927 | there is no second reduction if the first brings the comparison below the limit |
| `AstSizes.SecondReduction` | parsers/rgd-parser.cpp:903-927 | exactly when a second reduction leaves enough room, wrapping around included |
| `AstSizes.SecondTimeBreaks` | parsers/rgd-parser.cpp:903-927 | in terms of the operands: if and only if the constant operand has at least four nodes more than the other one |
| `AstSizes.SecondTimeExample` | parsers/rgd-parser.cpp:903-927 | a label table on which a comparison of three nodes ends up with a size of one |
| `Constraints.Builder.DoUta` | parsers/rgd-parser.cpp:165-502 | succeeds exactly for labels it can express, so it never runs out of nodes; the tree shows the label with constants pointing at their values, expands no label twice and refers only to expanded ones |
| `Constraints.Builder.Operators` | parsers/rgd-parser.cpp:234-502 | the same for memcmp and the common operators |
| `Constraints.Builder.Operand` | parsers/rgd-parser.cpp:388-432 | an operand as a child: its expansion, a reference, or a constant whose arguments hold the recorded values |
| `Constraints.ParseConstraint` | parsers/rgd-parser.cpp:505-539 | a constraint for every expressible comparison whose own size is enough and fits a signed number, with arguments for exactly its bytes; an uncaught exception for a size that does not fit |
| `BranchTasks.ConstructTask` | parsers/rgd-parser.cpp:541-565 | exactly the literals that are cached or expressible get a constraint, each label's built once |
| `BranchTasks.ChosenIff` | parsers/rgd-parser.cpp:541-565 | a literal of the clause is chosen if and only if it has a constraint already or can be expressed |
| `BranchTasks.ClausesAreReady` | parsers/rgd-parser.cpp:1306-1341 | what parse_cond says about its clauses is what construct_task needs |
| `ConstraintMeaning.TreeIsRight` | parsers/rgd-parser.cpp:165-502 | sharing changes nothing: the tree evaluates to what recursion over the labels gives, and so does every label it expands, for every input and every meaning of nodes, references and arguments included |
| `ConstraintMeaning.LabelsAreConsistent` | parsers/rgd-parser.cpp:180-188 | such an evaluation of expanded labels exists |
| `ConstraintMeaning.CanBeFilled` | parsers/rgd-parser.cpp:137-161 | the arguments can be filled from any input |
| `ConstraintMeaning.OperandsOfLiteral` | parsers/rgd-parser.cpp:380-502 | the operands of a comparison's tree have the values its leaf in the formula speaks about, or the recorded ones where concretized |
| `ConstraintValues.LabelValIs` | solvers/z3-solver.cpp:42-190 | evaluated by the kinds of the nodes, recursion over the labels gives the value and the width that the label stands for |
| `ConstraintValues.ConstraintMeans` | solvers/z3-solver.cpp:42-235 | the tree of a comparison, evaluated by the kinds of its nodes, has the values of the operand labels, or the recorded ones where concretized, under a kind that compares as the predicate does, and the value of its label if nothing was concretized; that of a memcmp has the value of its label |
| `ConstraintValues.PiecesAre` | parsers/rgd-parser.cpp:252-278 | the 8-byte pieces of a constant buffer together are the buffer, the first byte lowest |
| `SearchTask.RunsAre` | include/task.h:232-244 | the runs are not empty, lie apart, and hold exactly the offsets |
| `SearchTask.UsersAre` | include/task.h:216-225 | the list of a byte has each constraint that uses it once, in order, without memcmp |
| `SearchTask.Task.Slot` | include/task.h:207-215 | one slot per offset and one offset per slot |
| `SearchTask.Task.AddConstraint` | include/task.h:199-270 | one round extends all indexes and keeps earlier ones |
| `SearchTask.Task.Finalize` | include/task.h:193-287 | slots for exactly the bytes of all constraints, each with value and shape of the first constraint that uses it, exact user lists for every slot, arguments pointing at slots, maximal runs, and the largest constant count |
| `SearchTask.SlotsDistinct` | include/task.h:207-215 | two slots with the same offset are one |
| `SearchTask.PointsHome` | include/task.h:226-230 | every symbolic argument points at the slot of its own byte |
| `UnionFind.UnionFind.Reset` | include/union_find.h:19-29 | every element alone in its class |
| `UnionFind.UnionFind.Find` | include/union_find.h:32-43 | the root of the class; path splitting changes no class; at most as many steps as the rank, hence log2 of the size |
| `UnionFind.UnionFind.Merge` | include/union_find.h:46-70 | joins exactly the two classes and their rings, and returns the root |
| `UnionFind.UnionFind.GetSet` | include/union_find.h:73-83 | ends with exactly the class and its size, which is the component under all merges |
| `UnionFind.ClassIsComponent` | include/union_find.h:46-83 | classes are the components of the equivalence closure of the merges |
| `UnionFind.RankBound` | include/union_find.h:59-69 | 2 to the rank of a root never exceeds the number of elements, as its class has at least that many members |
| `Closure.AddPair` | include/union_find.h:46-70 | what the equivalence closure of one more pair connects |
| `ConstraintIndex.Index.Restrict` | parsers/rgd-parser.cpp:1451-1461 | overwriting the dependencies of a concretized comparison keeps everything filed where it can be found |
| `ConstraintIndex.Index.Save` | parsers/rgd-parser.cpp:1451-1482 | the bytes of a literal become one class and it is filed under the root; everything saved stays filed |
| `ConstraintIndex.Index.StillReachable` | parsers/rgd-parser.cpp:1451-1482 | after any later merges the class of any byte of a saved literal holds its bucket |
| `ConstraintIndex.Index.Collect` | parsers/rgd-parser.cpp:1359-1398 | exactly the labels filed in the class of the last byte, each once |
| `ConstraintIndex.Index.OneClassPerLabel` | parsers/rgd-parser.cpp:1451-1482 | a label is filed in one class only |
| `ConstraintIndex.Index.CollectIsComplete` | parsers/rgd-parser.cpp:1381-1384 | the search misses nothing if and only if every other class of the literal that holds constraints not yet taken is that of the last byte |
| `ConstraintIndex.CollectMisses` | parsers/rgd-parser.cpp:1381-1384 | an index and a literal for which it misses a constraint on the literal's first byte |
| `Driver.FuzzKeeps` | driver/aflpp/symsan.cpp:560-638 | a call adds at most one attempt and keeps attempts in order, unless stuck |
| `Driver.RepeatsIff` | driver/aflpp/symsan.cpp:578-603 | a pair is tried again if and only if a task is current in the invalid state |
| `Driver.StuckIff` | driver/aflpp/symsan.cpp:562-636 | that state is reached exactly by an error answer while not in validation |
| `Driver.ErrorRepeats` | driver/aflpp/symsan.cpp:562-636 | a run of two calls that tries the same pair twice |
| `Driver.RunInOrder` | driver/aflpp/symsan.cpp:560-659 | over every run: tasks first in first out, solvers in order, no pair twice, at most tasks times solvers attempts |
| `Driver.CountIsBound` | driver/aflpp/symsan.cpp:523-528 | the number announced bounds the solve calls until new tasks are added |
| `Driver.NextIsTried` | driver/aflpp/symsan.cpp:562-639 | after solver s was tried on task k the next call tries s + 1 on k, unless there is none, the answer was unsat, an entry was validated or the mutator restarted; it repeats s after an error that leaves it stuck; otherwise it tries the first solver on the next task, if there is one |
| `Driver.NextTaskIsTried` | driver/aflpp/symsan.cpp:566-577 | without a current task the first solver is tried on the next task, if there is one |
| `Driver.NothingIsGivenUp` | driver/aflpp/symsan.cpp:555-639 | calls that find solutions or time out, without restart or validated entry, try every solver on every task, one pair a call |
| `Driver.Session.NextTask` | include/task_mgr.h:26-31 | takes the oldest task |
| `Driver.Session.AddTask` | include/task_mgr.h:20-24 | adds behind the others |
| `Driver.Session.FuzzCount` | driver/aflpp/symsan.cpp:523-528 | the number of attempts still possible |
| `Driver.Session.QueueNewEntry` | driver/aflpp/symsan.cpp:644-659 | validates only while in validation of the same entry |
| `Driver.Session.Fuzz` | driver/aflpp/symsan.cpp:555-639 | the specified next state, in order unless stuck |
| `ArgumentSlots.StoreArguments` | instrumentation/TaintPass.cpp:2942-2959 | the caller stores exactly the arguments that have a slot, at that slot |
| `ArgumentSlots.FindArgument` | instrumentation/TaintPass.cpp:1627-1656 | the callee looks at exactly that slot, or uses the zero shadow |
| `ArgumentSlots.SlotsApart` | instrumentation/TaintPass.cpp:2942-2959 | slots do not overlap and end within 800 bytes |
| `ArgumentSlots.AlignIsLeast` | instrumentation/TaintPass.cpp:2942-2959 | sizes are rounded up to the least multiple of 4 |

## Left out

- The real Z3, LLVM JIT and gradient search: solver answers are parameters; a satisfying answer is any model of the expressions handed over.
- `simplify()` on Z3 expressions, reference counts and the `tsize` cache: they do not change meaning.
- fsize and atoi labels: their symbols have no tracked bytes; `Z3Serialize` and `Constraints` treat them as not expressible, so `Z3Sorts.Accepted` does not hold of them although the original gives them a symbol.
- Undefined-behaviour checks (`solve_ub`), bounds solving, the stack of alloca labels, bounds of globals and freed bounds labels.
- Floating-point operators, and opcodes that no parser handles.
- Hashes of AST nodes and reuse of compiled functions by hash.
- Truncation of input offsets to 32 bits and of the AST node index to 30 bits.
- `LabelTable.Table.Union`: the pieces of memory that fmemcmp copies are given as the operands; null and unaligned addresses, and memory orders, are not modelled.
- `LabelMeaning.UnionMeans`: calls of arithmetic, casts, joins, reads and comparisons; what memcmp, bounds, size, atoi and pointer labels made by a union stand for is not stated there.
- `LabelTable.UnionOf`: the all-ones constant shifts by the size modulo 64, as x86 does; the value results take sizes up to 64, where the original shift is defined below 64.
- `ShadowMemory.Slow`: a label narrower than 8 bits in a slot makes the original loop for ever; the model answers as for a dead process.
- `ShadowMeaning.LoadMeans`: the first label comes after fewer than 32 concrete bytes, as the width of what is in front of it is kept on 8 bits in the Z3 parser.
- `ConcurrentTable.Step`: every step is atomic and sees the latest values; weaker memory orders are not modelled.
- `Z3Parser.Parser.EnumerateIndices`: an element size of 0 makes the original enumerate a buffer for ever and is required not to be 0 then.
- `Z3Parser.Parser.ConstructIndexTasks`: the counter does not wrap around at 2^64.
- `ConstraintIndex.Index.Save`: one literal at a time; that literals of all clauses are saved is not modelled.
- `Constraints.ParseConstraint`: memory that runs out below the largest size is not modelled; when the size is too small for the tree, whether sharing still makes it fit is not decided.
- `BranchTasks.ConstructTask`: without finalize, which is modelled on its own.
- `Constraints.Builder.DoUta`: the set of operators used and the concrete operands of the comparison, which are recorded beside the tree, are not modelled.
- `Constraints.MapArg`: one map for all inputs, as in the original, which ignores the input id.
- `ConstraintValues.ConstraintMeans`: reads of one input, operands no wider than their operator, and constants that fit it; division by zero is left to the meaning of the operators, where the two solvers differ.
- `SearchTask.Task.Finalize`: constraints without atoi; scratch memory is not modelled.
- RGD `parse_gep` and `add_constraints`, nested tasks over several bytes: they repeat what `parse_cond` does.
- The heuristics of the input-to-state solver, libc wrappers, launcher, pipes, gRPC and Python drivers, and the rest of the LLVM pass.
