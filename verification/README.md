# Verification of the strong-Kleene policy engine

A Dafny model of the Boolean policy engine in `crates/elastic-core`, of the
elastic word planes beside it, and of the SML plan validator in
`crates/elastic-adapters`. A policy is an expression over predicates whose
truth may be True, False or Unknown. The engine evaluates it with a depth bound
and short circuits, rewrites it to a canonical form, fingerprints that form
over stable keys, compiles it to masks (one word, many words, batches), and
decides questions about it by enumerating assignments in base 2 or base 3. The
engine claims again and again that one of these forms means the same as
another. The claims are proved here for all expressions, all facts and all
registries.

`dafny verify dfyconfig.toml` checks the whole project.

## How it is laid out

| file | subject |
|---|---|
| `Truth.dfy`, `Expressions.dfy`, `Bounds.dfy`, `Preorder.dfy` | truth values, the meaning `Kleene(e, facts)`, its laws, the bounded walks and their visiting order |
| `Words.dfy`, `MachineWords.dfy`, `MachineKernels.dfy` | masks as sets of positions, the proof that 64-bit vectors are read that way, and the kernels over 64-bit vectors |
| `FactStore.dfy`, `EvaluationOrder.dfy`, `Literals.dfy`, `FastGuard.dfy` | the single-word store, the tree evaluator and where it stops, the `u64` mask compiler |
| `MultiwordFacts.dfy`, `MultiwordGuard.dfy`, `Acceptance.dfy` | the multiword store, compiler, kernels and batches; which expressions both mask compilers accept and which guards are dead |
| `Sorting.dfy`, `Order.dfy`, `OperandOrder.dfy`, `Canonical.dfy`, `NormalForm.dfy`, `RewriteLaws.dfy`, `Liveness.dfy` | the structural order, the canonical form, when two expressions share it, and which atoms and constants it keeps |
| `Predicates.dfy`, `KeyOrder.dfy`, `Encoding.dfy`, `StreamBytes.dfy`, `Fingerprint.dfy`, `HashLaws.dfy`, `Registries.dfy`, `Collisions.dfy` | keys, registries, the hashed byte stream, the hash bit by bit, and what fingerprints identify |
| `Oracle.dfy`, `KleeneOracle.dfy`, `BooleanOracle.dfy`, `QueryLaws.dfy`, `EnumerationOrder.dfy`, `OracleLaws.dfy` | the two exhaustive oracles, what their queries ask, which assignment they find first, and how their answers relate |
| `Guards.dfy`, `DeclarationLaws.dfy` | the declared guard, agreement of all engines, and what a declaration stores or reports |
| `ElasticWord.dfy` | width-changing repacking of a flat lane buffer |
| `Sml.dfy`, `SmlLaws.dfy` | validation of SML elastic-weight plans, and the same stated over fields and pages |
| `Outcomes.dfy`, `Lists.dfy` | result and error types, lists with an element taken out |

`Kleene(e, facts)` in `Expressions.dfy` is the reference meaning: a total
function with no bounds, no short circuits and no error. Every evaluator is
proved against it. Facts are a finite map from ids to booleans; an id outside
the map is Unknown.

Two things are stated once for several routines. `Scan` gives the outcome of the
four bounded preorder walks (`validate_predicates`, `validate_shape_at_depth`,
`validate_expression`, `collect_predicates`), which differ only in the limits
they enforce. `All` and `Any`, and the paired conjunction and disjunction
routines, are dual and share a flag.

Every specification function is tied to a second statement that does not use
it: values by truth tables, the hash by single bits and published FNV-1a
values, the order of operands by constructor, accepted shapes by their leaves,
the plan aggregates by sums over the pages they are about, and each reported
error by the first position, operand, page or assignment that causes it.

Where the code and its documentation disagree the code is followed. The
documentation of `BooleanGuard` (`crates/elastic-core/src/guard.rs:96`) says
construction validates that every atom of the expression is registered. The
code resolves only the atoms left after canonicalization. An atom is live when
one of its occurrences lies under no subexpression that already has a value
without any evidence (`Liveness.Live`); the live atoms are exactly those the
canonical form keeps. Construction succeeds exactly when the shape is bounded
and every live atom is registered (`Guards.NewExact`), and the documented rule
fails exactly where that holds and some other atom is not registered
(`Guards.DocumentedRuleExactly`). `Guards.DroppedAtomIsNotValidated` gives such
an expression for every registry.

## Model

| member | source | states |
|---|---|---|
| Truth.LastWriteWins | crates/elastic-core/src/logic.rs:189-215 | over any run of writes to an empty store, rejected ids included, the last write to an id in range is what is read back |
| Truth.NeverWritten | crates/elastic-core/src/logic.rs:181-215 | over any run of writes, an id that was never written or is out of range is Unknown |
| Truth.Tables | crates/elastic-core/src/logic.rs:27-73 | in the order False, Unknown, True conjunction is the lower value, disjunction the higher, negation turns the order over, implication is the higher of the negated left and the right, and exclusive-or is True exactly between True and False |
| FactStore.RunWrites | crates/elastic-core/src/logic.rs:181-198 | any run of `set` calls on a new store leaves exactly the replay of its accepted writes, and each call reports exactly whether its id is in range |
| MultiwordFacts.RunWrites | crates/elastic-core/src/multiword.rs:94-146 | the same for a multiword store of any capacity |
| MachineWords.OrIsUnion | crates/elastic-core/src/logic.rs:138-142 | `or` of two 64-bit masks sets exactly the positions set in either |
| MachineWords.AndIsIntersection | crates/elastic-core/src/logic.rs:150-164 | `and` of two 64-bit masks sets exactly the positions set in both |
| MachineWords.AndNotIsDifference | crates/elastic-core/src/logic.rs:144-147 | `a & !b` keeps exactly the positions of `a` not in `b` |
| MachineWords.PositionsAreSets | crates/elastic-core/src/multiword.rs:196-210 | a single bit is the one position `i`, and the low mask of `r` bits is the positions below `r`, up to and including all 64 |
| MachineWords.LowBitsIsPredecessor | crates/elastic-core/src/multiword.rs:196-210 | below 64 that low mask is the single bit `r` minus one |
| MachineWords.ShiftsAreSets | crates/elastic-core/src/logic.rs:447-452 | the shift expression `1 << i` sets exactly position `i`, and `(1 << r) - 1` exactly the positions below `r` |
| MachineWords.ZeroIsEmpty | crates/elastic-core/src/multiword_guard.rs:356-386 | a mask is zero exactly when no position is set, which is what the kernels test |
| MachineWords.EqualIsSameSet | crates/elastic-core/src/logic.rs:156-158 | masks are equal exactly when they set the same positions |
| MachineKernels.ConjunctionKernel | crates/elastic-core/src/multiword_guard.rs:356-386 | the conjunction kernel over 64-bit vectors computes the verdict over sets |
| MachineKernels.DisjunctionKernel | crates/elastic-core/src/multiword_guard.rs:388-419 | the disjunction kernel over 64-bit vectors computes the dual verdict |
| MachineKernels.OneBit | crates/elastic-core/src/multiword.rs:135-146 | or-ing in, or masking out, bit `id % 64` of machine word `id / 64` adds or removes the flat position `id` |
| Words.FlattenUpdate | crates/elastic-core/src/multiword.rs:135-146 | setting or clearing bit `id % 64` of word `id / 64` changes the flat position `id` and no other |
| Words.RowsDisjoint | crates/elastic-core/src/multiword_guard.rs:366-378 | two rows of words meet somewhere exactly when some pair of words does |
| Words.RowsCovered | crates/elastic-core/src/multiword_guard.rs:366-378 | one row of words covers another exactly when it does so word by word |
| Expressions.Coincidence | crates/elastic-core/src/logic.rs:279-321 | evaluation reads nothing but the atoms of the expression |
| Expressions.Monotone | crates/elastic-core/src/logic.rs:27-73 | learning more facts never changes a decided value |
| Expressions.Decided | crates/elastic-core/src/exact_oracle.rs:472-478 | where every atom is known the value is never Unknown |
| Expressions.KleeneListByMembers | crates/elastic-core/src/logic.rs:294-311 | a conjunction or disjunction depends only on which values its operands take |
| Expressions.NodeValues | crates/elastic-core/src/logic.rs:286-320 | the value of a constant, an atom, a negation, an exclusive-or and an implication from what is known and the values of the operands |
| Bounds.ScanExact | crates/elastic-core/src/canonical.rs:118-146 | a bounded walk succeeds with the exact node count of a tree within the limits, and otherwise its error names a bound the tree really breaks |
| Bounds.ScanDecidesWithin | crates/elastic-core/src/multiword_guard.rs:237-270 | passing the walk from the root is the same as depth, node count and every id being within the limits |
| Bounds.BoundsInNumbers | crates/elastic-core/src/canonical.rs:118-146 | the limits are depth 64, 4096 nodes, and ids below 64 or below the declared capacity |
| Bounds.ValidateAtDepth | crates/elastic-core/src/canonical.rs:118-146 | the recursive walk with its running counter returns the outcome and the counter of the specified preorder walk |
| Bounds.CollectPredicates | crates/elastic-core/src/kleene_oracle.rs:330-359 | the collecting walk fails exactly where the validating walk fails and otherwise adds exactly the atoms of the expression |
| Preorder.MeasuresOfPositions | crates/elastic-core/src/canonical.rs:118-146 | depth, node count and atoms are the largest distance, the number and the ids of the nodes visited |
| Preorder.OperandPosition | crates/elastic-core/src/canonical.rs:118-146 | each operand is visited right after its parent and everything in the operands before it |
| Preorder.ScanReportsFirst | crates/elastic-core/src/canonical.rs:118-146 | the error of a bounded walk is the fault of the first visited node that is too deep, one node too many, or an atom out of range |
| FactStore.FactSet.constructor | crates/elastic-core/src/logic.rs:181-186 | a new store has disjoint masks and knows nothing |
| FactStore.FactSet.Set | crates/elastic-core/src/logic.rs:189-198 | a write below 64 changes that one id to the given truth and keeps the masks disjoint; an id out of range changes nothing and is reported |
| FactStore.FactSet.Get | crates/elastic-core/src/logic.rs:207-215 | a read below 64 returns what the store holds, Unknown by default |
| FactStore.Contains | crates/elastic-core/src/logic.rs:150-153 | the mask test is membership |
| FactStore.EvalSound | crates/elastic-core/src/logic.rs:279-321 | every successful bounded, short-circuiting evaluation returns the Kleene value, and a failure names a bound the tree breaks |
| FactStore.EvalWithin | crates/elastic-core/src/logic.rs:279-321 | within the depth bound and the id capacity evaluation cannot fail |
| FactStore.EvaluateAtDepth | crates/elastic-core/src/logic.rs:279-321 | the loop with a running result and early exit computes the specified bounded evaluation |
| FactStore.Evaluate | crates/elastic-core/src/logic.rs:275-277 | `evaluate` returns the Kleene value of every expression within the bounds |
| EvaluationOrder.StopsAt | crates/elastic-core/src/logic.rs:294-311 | a group stops at its first operand that fails or decides it, with the outcome of that operand |
| EvaluationOrder.RunsThrough | crates/elastic-core/src/logic.rs:294-311 | a group no operand of which fails or decides it is neutral exactly when all operands are, and Unknown otherwise |
| EvaluationOrder.DecidedStaysDecided | crates/elastic-core/src/logic.rs:294-311 | once a group is decided, appending operands changes nothing, however ill-formed they are |
| EvaluationOrder.IllFormedOperandIsSkipped | crates/elastic-core/src/logic.rs:294-311 | a deciding constant before an id out of range gives its value, and after it the range error |
| EvaluationOrder.BothOperandsAreEvaluated | crates/elastic-core/src/logic.rs:312-319 | exclusive-or and implication evaluate both operands, and the failure of the left one is reported first |
| EvaluationOrder.DepthComesFirst | crates/elastic-core/src/logic.rs:279-293 | every node below depth 64 fails with the depth error, a negation fails or turns over with its operand, and an atom out of range is reported |
| EvaluationOrder.StraightExactly | crates/elastic-core/src/logic.rs:279-321 | without groups evaluation succeeds exactly within depth 64 and with every id in range |
| Literals.FlatMeaning | crates/elastic-core/src/logic.rs:454-488 | a flat group of literals, nested groups of its kind included, means exactly its set of literals |
| Literals.MaskVerdictIsFold | crates/elastic-core/src/multiword_guard.rs:356-386 | conflict and missing masks compute the value of the conjunction from any consistent store, opposing literals included |
| Literals.MaskDuality | crates/elastic-core/src/multiword_guard.rs:388-419 | a disjunction is the negation of the conjunction with the two masks exchanged |
| FastGuard.CollectConjunction | crates/elastic-core/src/logic.rs:454-488 | collection accepts exactly the flat conjunctions and adds exactly their literals to the masks |
| FastGuard.Compile | crates/elastic-core/src/logic.rs:362-391 | compilation succeeds exactly for expressions within the bounds, with masks or fallback representing the expression, and otherwise reports the walk's error |
| FastGuard.CompiledGuard.Evaluate | crates/elastic-core/src/logic.rs:393-414 | a guard compiled from a bounded expression evaluates without error to its Kleene value; any guard evaluates to the verdict of the store's masks |
| FastGuard.CompiledMeaning | crates/elastic-core/src/logic.rs:362-414 | compiling keeps the three-valued meaning on both paths, whatever is known |
| FastGuard.ContradictoryIffNeverTrue | crates/elastic-core/src/logic.rs:434-444 | on the mask path `is_contradictory` holds exactly when no facts make the guard True |
| FastGuard.OpposingLiteralsStayUnknown | crates/elastic-core/src/logic.rs:434-444 | a guard with opposing literals and no False constant is Unknown exactly while no fact refutes one of its literals, and False otherwise |
| Acceptance.FlatIsLeaves | crates/elastic-core/src/logic.rs:454-488 | an expression is accepted for masks exactly when opening its nested groups of the kind leaves only atoms, negated atoms and constants, and the collected literals are those leaves |
| Acceptance.MaskPathExactly | crates/elastic-core/src/logic.rs:362-444 | a compiled guard uses masks exactly when every leaf is a literal; its masks then hold the atoms and the negated atoms among the leaves, and it is contradictory exactly when a leaf is False or some atom occurs both ways |
| Acceptance.DeadConjunctions | crates/elastic-core/src/logic.rs:434-444 | a conjunction of literals always takes the mask path, and is contradictory exactly when False or some atom with its negation is among the operands, as for `All([p, Not(p)])` |
| MultiwordFacts.MultiwordFactSet.constructor | crates/elastic-core/src/multiword.rs:94-108 | a new store of any capacity is empty and consistent |
| MultiwordFacts.WordCountIsLeast | crates/elastic-core/src/multiword.rs:94-108 | a store has the fewest 64-bit words that hold its capacity, at most 64 words for 4096 predicates |
| MultiwordFacts.MultiwordFactSet.New | crates/elastic-core/src/multiword.rs:94-108 | creation fails exactly above the maximum capacity |
| MultiwordFacts.MultiwordFactSet.Set | crates/elastic-core/src/multiword.rs:135-146 | a write below the capacity changes one id of the map, keeps true and false disjoint and sets no bit past the capacity; otherwise nothing changes |
| MultiwordFacts.MultiwordFactSet.Get | crates/elastic-core/src/multiword.rs:155-165 | a read below the capacity returns what the map holds |
| MultiwordFacts.MultiwordFactSet.ValidMask | crates/elastic-core/src/multiword.rs:196-210 | the valid mask of a word is exactly its bits below the capacity |
| MultiwordFacts.MultiwordFactSet.WordMasks | crates/elastic-core/src/multiword.rs:169-181 | every valid bit is in exactly one of the true, false and unknown masks of its word, and no invalid bit is in any |
| MultiwordGuard.Compile | crates/elastic-core/src/multiword_guard.rs:97-159 | compilation succeeds exactly within capacity and bounds, with a path representing the expression |
| Acceptance.MultiwordPathExactly | crates/elastic-core/src/multiword_guard.rs:97-159 | the conjunction path is taken exactly when every leaf of the conjunction is a literal, the disjunction path exactly when that fails and every leaf of the disjunction is one, and the tree is kept otherwise; the masks hold exactly the leaves |
| Acceptance.FlatDisjunctions | crates/elastic-core/src/multiword_guard.rs:313-354 | a disjunction of literals is compiled to masks holding exactly its operands |
| MultiwordGuard.CollectLiterals | crates/elastic-core/src/multiword_guard.rs:272-354 | the two dual collections accept exactly the flat groups and add exactly their literals to the mask arrays |
| MultiwordGuard.InsertInto | crates/elastic-core/src/multiword_guard.rs:231-235 | an id below the capacity becomes one more position of the mask; another leaves it unchanged |
| MultiwordGuard.EvaluateConjunction | crates/elastic-core/src/multiword_guard.rs:356-386 | the word loop computes the conjunction's mask verdict over the flattened rows |
| MultiwordGuard.EvaluateDisjunction | crates/elastic-core/src/multiword_guard.rs:388-419 | the dual kernel is the negation of the conjunction's verdict with masks exchanged |
| MultiwordGuard.EvaluateExpression | crates/elastic-core/src/multiword_guard.rs:421-464 | the generic path computes the bounded evaluation over the store's capacity |
| MultiwordGuard.VerdictIsKleene | crates/elastic-core/src/multiword_guard.rs:162-198 | on all three paths the verdict is the Kleene value of the compiled expression |
| MultiwordGuard.MultiwordCompiledGuard.Evaluate | crates/elastic-core/src/multiword_guard.rs:162-198 | for every store covering the declared capacity evaluation succeeds with the Kleene value, and a smaller store is refused |
| MultiwordGuard.CompileBatch | crates/elastic-core/src/multiword_batch.rs:58-87 | a batch compiles exactly when it is small enough and every candidate is within the bounds, in order; otherwise the error is the first offending candidate's |
| MultiwordGuard.MultiwordGuardBatch.Evaluate | crates/elastic-core/src/multiword_batch.rs:90-107 | one Kleene value per candidate, in caller order |
| MultiwordGuard.IndexViews | crates/elastic-core/src/multiword_batch.rs:159-179 | each index view lists exactly its positions, strictly ascending |
| MultiwordGuard.IndexViewsPartition | crates/elastic-core/src/multiword_batch.rs:159-179 | the three views together count every position once |
| Order.CompareEqual | crates/elastic-core/src/canonical.rs:239-272 | `compare_expr` returns Equal exactly for structurally equal expressions |
| Order.CompareReverse | crates/elastic-core/src/canonical.rs:239-272 | exchanging the operands reverses the outcome |
| Order.CompareTransitive | crates/elastic-core/src/canonical.rs:239-272 | the order is transitive over arbitrarily nested expressions |
| Order.CompareIsTotalOrder | crates/elastic-core/src/canonical.rs:239-272 | `compare_expr` is a total order |
| OperandOrder.CompareIsEarlier | crates/elastic-core/src/canonical.rs:239-272 | `compare_expr` is Less exactly for a node of an earlier kind (constant, atom, negation, conjunction, disjunction, exclusive-or, implication), or of one kind with a lower value or id or an earlier part at the first difference, a proper prefix being earlier |
| OperandOrder.CanonicalOperandsAscend | crates/elastic-core/src/canonical.rs:202-205 | in a canonical group every operand comes before every later one in that order |
| OperandOrder.CanonicalOperandKinds | crates/elastic-core/src/canonical.rs:202-205 | in a canonical group atoms come first in strictly ascending id, then negations, conjunctions, disjunctions, exclusive-ors and implications |
| OperandOrder.CanonicalXorAscends | crates/elastic-core/src/canonical.rs:214-227 | the operands of a canonical exclusive-or are equal or in that order |
| Sorting.SortDedupStrict | crates/elastic-core/src/canonical.rs:202-205 | sorting and removing adjacent duplicates gives the strictly ascending list of the members |
| Sorting.SortDedupBySet | crates/elastic-core/src/canonical.rs:202-205 | the sorted, deduplicated list depends only on the set of members |
| Canonical.NormalizeOperands | crates/elastic-core/src/canonical.rs:176-200 | the flattening loop with its early exit computes the normalized group |
| Canonical.CanonicalizeValidated | crates/elastic-core/src/canonical.rs:148-166 | the rewrite as executed is the specified canonical form |
| Canonical.Canonicalize | crates/elastic-core/src/canonical.rs:90-93 | `canonicalize` checks the shape first and then rewrites |
| Canonical.CanonMeaning | crates/elastic-core/src/canonical.rs:148-237 | canonicalization preserves the three-valued meaning under all facts |
| Canonical.CanonNoLarger | crates/elastic-core/src/canonical.rs:148-237 | neither depth nor node count grows and no atom appears |
| Canonical.CanonIsCanonical | crates/elastic-core/src/canonical.rs:148-237 | the output is in the normal form, stated without running the rewrite |
| Liveness.ConstantExactly | crates/elastic-core/src/canonical.rs:148-237 | canonicalization folds to a constant exactly the expressions that have that value without any evidence |
| Liveness.CanonAtomsAreLive | crates/elastic-core/src/canonical.rs:148-237 | the canonical form mentions exactly the live atoms |
| Liveness.PruneCanon | crates/elastic-core/src/canonical.rs:148-237 | replacing every subexpression decided without evidence by its value does not change the canonical form |
| Canonical.CanonicalIffFixed | crates/elastic-core/src/canonical.rs:148-237 | an expression is in normal form exactly when canonicalization leaves it alone |
| Canonical.CanonicalizeIdempotent | crates/elastic-core/src/canonical.rs:90-93 | canonicalizing a canonical form passes the bounds again and changes nothing |
| NormalForm.GroupExactly | crates/elastic-core/src/canonical.rs:176-212 | two groups of one kind have the same canonical form exactly when both are decided by an operand that is canonically the absorbing constant, or neither is and their canonical flattened operands form the same set |
| NormalForm.GroupBySet | crates/elastic-core/src/canonical.rs:176-212 | an instance: reordering or repeating the operands as written changes nothing |
| NormalForm.GroupNesting | crates/elastic-core/src/canonical.rs:176-200 | an instance: nesting a group of the same kind anywhere among the operands changes nothing |
| NormalForm.XorCommutes | crates/elastic-core/src/canonical.rs:214-227 | exclusive-or operands commute in the canonical form |
| RewriteLaws.Negations | crates/elastic-core/src/canonical.rs:168-174 | double negations cancel, a single negation of an undecided operand stays, and two negations have one canonical form exactly when their operands have |
| RewriteLaws.DecidedXor | crates/elastic-core/src/canonical.rs:214-222 | an exclusive-or with an operand decided without evidence is the other operand, negated where the first is True |
| RewriteLaws.XorExactly | crates/elastic-core/src/canonical.rs:214-227 | two exclusive-ors of undecided operands have one canonical form exactly when their unordered pairs of canonical operands are the same |
| RewriteLaws.DecidedImplies | crates/elastic-core/src/canonical.rs:229-236 | what an implication becomes when a side is decided without evidence |
| RewriteLaws.UndecidedImplies | crates/elastic-core/src/canonical.rs:229-236 | an implication of undecided sides keeps both, in their direction |
| RewriteLaws.GroupOperands | crates/elastic-core/src/canonical.rs:176-212 | the canonical form of an undecided group has exactly the operands its undecided operands give it, each its canonical form or, for a group of the same kind, the operands of that form |
| Predicates.ValidateComponent | crates/elastic-core/src/predicate.rs:216-244 | a component is accepted exactly when it is non-empty, at most 64 bytes and made of allowed characters |
| Predicates.NewKey | crates/elastic-core/src/predicate.rs:41-50 | a key is built exactly from two valid components |
| KeyOrder.AllowedCharacters | crates/elastic-core/src/predicate.rs:216-244 | the allowed characters are the lower-case letters, the digits, the full stop, the underscore and the hyphen |
| KeyOrder.ComponentErrors | crates/elastic-core/src/predicate.rs:216-244 | the first thing wrong with a component is reported: empty, over 64 bytes, or a character not allowed |
| KeyOrder.KeyErrors | crates/elastic-core/src/predicate.rs:41-50 | a key reports its namespace before its name |
| Predicates.KeysAreTotallyOrdered | crates/elastic-core/src/predicate.rs:25-29 | the derived order on keys is total |
| KeyOrder.CompareKeysIsBefore | crates/elastic-core/src/predicate.rs:25-29 | one key is below another exactly when its namespace is, or the namespaces are equal and its name is, byte strings being ordered at their first difference with a proper prefix first |
| Predicates.FromKeysIndexes | crates/elastic-core/src/predicate.rs:159-205 | a built registry holds exactly the given keys, and `id` and `key` are inverse |
| Predicates.FromKeysBySet | crates/elastic-core/src/predicate.rs:159-172 | construction order and repetition do not change the registry, nor its capacity error |
| KeyOrder.TooManyKeys | crates/elastic-core/src/predicate.rs:159-172 | a registry is refused exactly above 64 distinct keys, and the error counts them |
| Predicates.IdsFollowKeys | crates/elastic-core/src/predicate.rs:144-172 | ids follow key order |
| KeyOrder.IdsAscend | crates/elastic-core/src/predicate.rs:144-172 | along the ids of a registry namespaces never descend, and within one namespace names ascend |
| Encoding.ResolveSucceeds | crates/elastic-core/src/canonical.rs:274-322 | resolving atoms to keys succeeds exactly when every atom is registered, and otherwise reports one that is not |
| Preorder.ResolveReportsFirst | crates/elastic-core/src/canonical.rs:274-322 | the unregistered atom reported is the first one visited |
| DeclarationLaws.NumberingUndoesResolve | crates/elastic-core/src/canonical.rs:274-322 | numbering the keys of a resolved expression again gives back the expression |
| Encoding.RoundTrip | crates/elastic-core/src/canonical.rs:274-351 | decoding the bytes of an expression, followed by anything, returns the keyed expression and exactly what followed |
| StreamBytes.LittleEndianByte | crates/elastic-core/src/canonical.rs:338-343 | each byte of a number is that byte of it, counted from the low end |
| StreamBytes.NumbersAndTexts | crates/elastic-core/src/canonical.rs:338-351 | a number is `#` and eight bytes, low byte first, and a text is `s`, its length and its bytes |
| StreamBytes.NodeBytes | crates/elastic-core/src/canonical.rs:274-322 | which letter opens each kind of node and what follows it, and the version tag and schema number 1 in front |
| Encoding.PrefixFree | crates/elastic-core/src/canonical.rs:274-351 | no encoding is a prefix of another, and different keyed expressions have different encodings |
| Encoding.BoundedFits | crates/elastic-core/src/canonical.rs:338-351 | within the node bound and over well-formed keys every length fits its 64-bit field |
| Fingerprint.AbsorbInjective | crates/elastic-core/src/canonical.rs:353-356 | one hash step is injective in the state and in the byte |
| HashLaws.XorBitsBitwise | crates/elastic-core/src/canonical.rs:353-356 | below the width each bit of the exclusive-or is set exactly when the two bits differ, and no bit above it is set |
| HashLaws.XorByteBitwise | crates/elastic-core/src/canonical.rs:353-356 | a byte changes exactly the bits of the state that are set in it |
| HashLaws.FnvVectors | crates/elastic-core/src/canonical.rs:326-361 | the hash of no bytes and of the letter `a` are the published 64-bit FNV-1a values |
| Fingerprint.OneByteNeverCollides | crates/elastic-core/src/canonical.rs:326-361 | streams of one length that differ in exactly one byte never share a hash |
| Fingerprint.StableHasher.AbsorbByte | crates/elastic-core/src/canonical.rs:353-356 | absorbing keeps the state equal to the hash of everything absorbed |
| Fingerprint.StableHasher.Number | crates/elastic-core/src/canonical.rs:338-343 | a number appends its tag and eight little-endian bytes |
| Fingerprint.StableHasher.Text | crates/elastic-core/src/canonical.rs:345-351 | a text appends its tag, its length and its bytes |
| Fingerprint.StableHasher.Finish | crates/elastic-core/src/canonical.rs:358-360 | the result is the hash of the stream absorbed |
| Fingerprint.FingerprintExpr | crates/elastic-core/src/canonical.rs:274-322 | the recursive walk absorbs exactly the encoding of the resolved expression, or stops at the first unregistered atom |
| Fingerprint.CanonicalFingerprint | crates/elastic-core/src/canonical.rs:100-110 | the fingerprint is the hash of the versioned encoding of the canonical form over stable keys |
| DeclarationLaws.FingerprintOf | crates/elastic-core/src/canonical.rs:100-110 | a fingerprint is the hash of a version tag, the number 1 and the encoding of a keyed expression that numbers back to the canonical form |
| DeclarationLaws.FingerprintErrors | crates/elastic-core/src/canonical.rs:100-110 | without a fingerprint the error is the bound error of the expression, or else the first unregistered atom of its canonical form |
| Fingerprint.StreamsDiffer | crates/elastic-core/src/canonical.rs:100-110 | different resolved expressions feed the hasher different streams, and equal ones the same |
| Collisions.NearMissEncodings | crates/elastic-core/src/canonical.rs:274-351 | changing one constant or one byte of one key anywhere in an expression changes exactly one byte of its encoding |
| Collisions.NearMissNeverCollides | crates/elastic-core/src/canonical.rs:326-360 | keyed expressions that differ so never share a hash |
| Collisions.FingerprintsNeverCollide | crates/elastic-core/src/canonical.rs:100-110 | expressions whose canonical forms differ so never share a fingerprint, across registries too |
| Collisions.SameBytesSameExpression | crates/elastic-core/src/canonical.rs:100-110 | two accepted expressions feed the same bytes exactly when their canonical forms over stable keys are the same |
| Registries.CompareRenamed | crates/elastic-core/src/canonical.rs:239-272 | a strictly monotone renaming of ids does not change the order of expressions |
| Registries.CanonRenamed | crates/elastic-core/src/canonical.rs:148-237 | canonicalization commutes with every strictly monotone renaming |
| Registries.TranslationMonotone | crates/elastic-core/src/predicate.rs:159-205 | moving ids from one registry to another is strictly monotone |
| Registries.FingerprintedExactly | crates/elastic-core/src/canonical.rs:95-111 | an expression is fingerprinted exactly when it is bounded and what is left after replacing subexpressions decided without evidence is registered |
| Registries.RegistryIndependence | crates/elastic-core/src/canonical.rs:95-111 | bounded expressions that are the same over stable keys, up to subexpressions decided without evidence, have the same fingerprint in any two registries, unregistered dead atoms included |
| Registries.RegisteredOutcomeAgrees | crates/elastic-core/src/canonical.rs:95-111 | where every atom is registered the bound error, too, is the same in any two registries |
| Oracle.NewLimits | crates/elastic-core/src/exact_oracle.rs:37-54 | limits are accepted exactly within the hard caps |
| Oracle.CounterOfAssignment | crates/elastic-core/src/kleene_oracle.rs:315-327 | different counter values write different assignments |
| Oracle.AssignmentOfCounter | crates/elastic-core/src/kleene_oracle.rs:315-327 | every assignment of the variables is written by some counter value below the space, in base 3 and in base 2 |
| EnumerationOrder.AssignmentLookup | crates/elastic-core/src/kleene_oracle.rs:315-327 | the first variable takes the value of the lowest digit of the counter and the other variables what the higher digits give them |
| EnumerationOrder.CounterOrder | crates/elastic-core/src/kleene_oracle.rs:315-327 | counters are ordered as their assignments are: by the highest variable on which they differ, False before True before Unknown |
| EnumerationOrder.SpacesArePowers | crates/elastic-core/src/kleene_oracle.rs:280-293 | the spaces are the powers of two and of three |
| Oracle.PreparedExactly | crates/elastic-core/src/exact_oracle.rs:384-411 | preparation succeeds exactly for bounded operands whose number of distinct atoms and whose assignment space are within the limits, in either base |
| Oracle.PreparedDomain | crates/elastic-core/src/exact_oracle.rs:384-411 | a prepared domain lists exactly the atoms of the operands, ascending, and its space is the exact power of the base |
| EnumerationOrder.PrepareErrors | crates/elastic-core/src/kleene_oracle.rs:269-300 | preparation reports the first operand that breaks a bound, else the number of variables, else the first power of three past the limit or, classically, the whole space |
| Oracle.EnumerationExact | crates/elastic-core/src/kleene_oracle.rs:244-267 | a query holds at every enumerated assignment exactly when it holds for all assignments |
| Oracle.ReportDecides | crates/elastic-core/src/kleene_oracle.rs:244-267 | a report that stops at the first refutation decides the query |
| EnumerationOrder.FoundIsFirst | crates/elastic-core/src/kleene_oracle.rs:244-267 | every assignment that refutes the query, other than the one reported, is tried later: at the last variable where the two differ it has the later value of False, True and Unknown |
| EnumerationOrder.BeforeIsStrict | crates/elastic-core/src/kleene_oracle.rs:315-327 | the order in which assignments are tried is strict |
| EnumerationOrder.ReportCounts | crates/elastic-core/src/kleene_oracle.rs:244-267 | the counts in a report are the distinct atoms, the power of the base they span, and the place of the assignment found, counted from 1, or all assignments |
| QueryLaws.QueriesInValues | crates/elastic-core/src/kleene_oracle.rs:167-220 | each query, in either logic, as a property of the values of its operands at every assignment tried |
| QueryLaws.SymmetricQueries | crates/elastic-core/src/kleene_oracle.rs:200-220 | equivalence and mutual exclusion do not depend on which operand comes first |
| QueryLaws.ClassicalEquivalence | crates/elastic-core/src/exact_oracle.rs:297-320 | classically an equivalence is the two implications |
| QueryLaws.KleeneEquivalence | crates/elastic-core/src/kleene_oracle.rs:187-210 | in three values an equivalence is the implications both ways of the operands and of their negations |
| QueryLaws.ExclusionIsContradiction | crates/elastic-core/src/kleene_oracle.rs:177-220 | mutual exclusion is the contradiction of the conjunction |
| QueryLaws.ClassicalImplication | crates/elastic-core/src/exact_oracle.rs:276-308 | classically the implication query is the tautology of the implication |
| QueryLaws.ClassicalContradiction | crates/elastic-core/src/exact_oracle.rs:276-295 | classically a contradiction is an expression whose negation is a tautology |
| QueryLaws.ConstantImplication | crates/elastic-core/src/kleene_oracle.rs:167-199 | implication from True is the tautology query, and implication to False the contradiction query |
| QueryLaws.OneSidedIsNotEquivalent | crates/elastic-core/src/kleene_oracle.rs:200-210 | `p0` and `All([p0, p1])` are not equivalent, in either order and either logic |
| Oracle.CollectAll | crates/elastic-core/src/exact_oracle.rs:384-388 | collection over the operands gives all their atoms or the first bound error |
| KleeneOracle.KleeneFactSet | crates/elastic-core/src/kleene_oracle.rs:315-327 | the dividing loop writes the base-3 assignment of its counter |
| KleeneOracle.PrepareKleene | crates/elastic-core/src/kleene_oracle.rs:269-300 | preparation succeeds exactly within the limits, and fails at the first power of three past them |
| KleeneOracle.KleeneUniversal | crates/elastic-core/src/kleene_oracle.rs:244-267 | a report holds exactly when the query holds for all three-valued assignments; a counterexample is the first in counter order with the matching count, and no error follows preparation |
| KleeneOracle.KleeneSatisfiability | crates/elastic-core/src/kleene_oracle.rs:142-164 | a witness is reported exactly when some facts make the expression True, and it is the first in counter order |
| KleeneOracle.KleeneProperty | crates/elastic-core/src/kleene_oracle.rs:167-220 | the five queries ask what they say of each assignment |
| BooleanOracle.BooleanFactSet | crates/elastic-core/src/exact_oracle.rs:427-438 | the bit loop writes the base-2 assignment of its counter |
| BooleanOracle.BooleanProperty | crates/elastic-core/src/exact_oracle.rs:276-331 | the classical queries ask what they say, and `UnexpectedUnknown` cannot arise where every atom is decided |
| BooleanOracle.PrepareBoolean | crates/elastic-core/src/exact_oracle.rs:384-411 | preparation succeeds exactly for bounded operands with few enough atoms and a small enough space, and otherwise reports the first of these that fails |
| BooleanOracle.BooleanUniversal | crates/elastic-core/src/exact_oracle.rs:359-382 | a report holds exactly when the query holds for all total assignments; a counterexample is the first, and no error follows preparation |
| BooleanOracle.BooleanSatisfiability | crates/elastic-core/src/exact_oracle.rs:247-273 | a witness is the first total assignment making the expression True, and its absence means there is none |
| OracleLaws.KleeneAcceptsImpliesBooleanAccepts | crates/elastic-core/src/kleene_oracle.rs:269-300 | under the same limits whatever the three-valued oracle accepts the classical one accepts |
| OracleLaws.KleeneVerdictImpliesBoolean | crates/elastic-core/src/kleene_oracle.rs:167-220 | a three-valued verdict implies the classical one |
| OracleLaws.NeverTrueAgrees | crates/elastic-core/src/kleene_oracle.rs:177-220 | contradiction and mutual exclusion have the same answer in both logics |
| OracleLaws.TautologyIffTrueOnNothing | crates/elastic-core/src/kleene_oracle.rs:167-174 | a three-valued tautology is exactly an expression that is True without evidence |
| OracleLaws.TautologyIffCanonicalTrue | crates/elastic-core/src/canonical.rs:148-237 | the canonicalizer finds exactly the three-valued tautologies |
| OracleLaws.SameCanonicalFormEquivalent | crates/elastic-core/src/canonical.rs:148-237 | expressions with one canonical form are three-valued equivalent |
| OracleLaws.AbsorptionIsNotFolded | crates/elastic-core/src/canonical.rs:148-237 | the converse fails: absorption is an equivalence the canonical form does not see |
| OracleLaws.ExcludedMiddleIsOnlyClassical | crates/elastic-core/src/kleene_oracle.rs:167-209 | tautology, implication and equivalence can hold classically and fail in three values |
| OracleLaws.DeadGuardAgrees | crates/elastic-core/src/logic.rs:434-444 | the mask test for a dead guard gives the answer of the exhaustive contradiction query, in either logic |
| OracleLaws.ClauseRedundancy | crates/elastic-core/src/exact_oracle.rs:337-357 | the redundancy query decides whether dropping the clause leaves an equivalent conjunction, with the first counterexample and its count, and rejects an index out of range |
| OracleLaws.RedundantIffNeverAbove | crates/elastic-core/src/kleene_oracle.rs:223-243 | in three values a clause is redundant exactly when the others never rise above it in the order False, Unknown, True |
| OracleLaws.ClassicallyRedundantIffImplied | crates/elastic-core/src/exact_oracle.rs:333-357 | classically a clause is redundant exactly when the others imply it |
| OracleLaws.RedundantImpliesImplied | crates/elastic-core/src/kleene_oracle.rs:223-243 | in three values a redundant clause is implied by the others |
| OracleLaws.ImpliedIsNotRedundant | crates/elastic-core/src/kleene_oracle.rs:223-243 | an implied clause need not be redundant in three values |
| Guards.EstablishedLookup | crates/elastic-core/src/guard.rs:164-169 | after the source is read, each registered id carries its key's truth and every other id is Unknown |
| Guards.MissingEvidenceIsUnknown | crates/elastic-core/src/guard.rs:88-92 | over a map of evidence, a registered key without evidence and every unregistered id read Unknown |
| Guards.StableMeaning | crates/elastic-core/src/guard.rs:164-170 | what a source makes of an expression through a registry is the Kleene value of the expression over stable keys |
| Guards.ValueIsRegistryIndependent | crates/elastic-core/src/guard.rs:164-170 | the same expression over stable keys takes the same value on every source in any two registries |
| Guards.BooleanGuard.Evaluate | crates/elastic-core/src/guard.rs:164-170 | every constructed guard evaluates without error on every source, to the Kleene value of the expression originally supplied |
| Guards.New | crates/elastic-core/src/guard.rs:114-127 | construction returns a guard over the canonical form exactly when the shape is bounded and every live atom is registered, and the canonicalization or fingerprint error otherwise |
| Guards.NewExact | crates/elastic-core/src/guard.rs:114-127 | construction succeeds exactly when the shape is bounded and every live atom is registered; the fingerprint is that of the original expression |
| DeclarationLaws.DeclarationFollowsFingerprint | crates/elastic-core/src/guard.rs:114-127 | a declaration stores the canonical form and the fingerprint of the expression, and fails with exactly the error of fingerprinting it |
| Guards.DocumentedRuleExactly | crates/elastic-core/src/guard.rs:94-98 | the documented rule fails exactly where the shape is bounded, every live atom is registered and some other atom is not |
| Guards.DroppedAtomIsNotValidated | crates/elastic-core/src/guard.rs:94-98 | for every registry an expression with an unregistered atom is accepted, so the documented rule does fail |
| Guards.EnginesAgree | crates/elastic-core/src/multiword_guard.rs:162-198 | for one set of facts the bounded tree walk, the single-word guard and the multiword guard, each from an expression or from its canonical form, give one verdict |
| Guards.ScreenCandidates | crates/elastic-core/src/multiword_batch.rs:58-107 | a batch over candidates followed by their canonical forms screens, candidate by candidate, what the tree walk and both compiled guards return for that candidate |
| ElasticWord.AdmittedWidths | crates/elastic-core/src/elastic_word.rs:41-48 | the admitted lane counts are 1, 2, 4, 8, 16 and 32 |
| ElasticWord.FromLanes | crates/elastic-core/src/elastic_word.rs:41-48 | a lane count is accepted exactly when it is 1, 2, 4, 8, 16 or 32, and otherwise reported |
| ElasticWord.FromBits | crates/elastic-core/src/elastic_word.rs:51-60 | a bit width is accepted exactly when it is 64, 128, 256, 512, 1024 or 2048 |
| ElasticWord.NewPlane | crates/elastic-core/src/elastic_word.rs:149-158 | a plane is built exactly from a buffer of whole words |
| ElasticWord.CountIsQuotient | crates/elastic-core/src/elastic_word.rs:179-181 | the word count is the quotient of buffer length and width |
| ElasticWord.PlaneLayout | crates/elastic-core/src/elastic_word.rs:149-193 | a plane is a buffer of whole words, lane `j` of word `i` is element `i * width + j`, and lanes not stored read zero |
| ElasticWord.WordExact | crates/elastic-core/src/elastic_word.rs:196-218 | a word is borrowed exactly below the word count, whatever overflows, and is the stored lanes |
| ElasticWord.WordErrors | crates/elastic-core/src/elastic_word.rs:196-218 | an index that cannot be borrowed is reported with the number of words |
| ElasticWord.Repack | crates/elastic-core/src/elastic_word.rs:251-293 | the copying loop returns a plane holding the same words, or the first non-zero lane it would drop, or a length overflow |
| ElasticWord.RepackedUnique | crates/elastic-core/src/elastic_word.rs:251-293 | those conditions permit exactly one outcome |
| ElasticWord.RepackSucceedsExactly | crates/elastic-core/src/elastic_word.rs:251-293 | repacking succeeds exactly when the target fits and every dropped lane is zero |
| ElasticWord.LossInBuffer | crates/elastic-core/src/elastic_word.rs:251-293 | the lane reported as lost is the first one in the buffer that is non-zero and beyond the target width |
| ElasticWord.OverflowExactly | crates/elastic-core/src/elastic_word.rs:251-293 | the length overflow is reported exactly where word count times target width passes 64 bits |
| ElasticWord.ContractionExactly | crates/elastic-core/src/elastic_word.rs:244-250 | a contraction succeeds exactly when every dropped lane is zero, and never overflows |
| ElasticWord.ExpansionExactly | crates/elastic-core/src/elastic_word.rs:244-250 | an expansion succeeds exactly when the target length fits, and never loses data |
| ElasticWord.PathIndependence | crates/elastic-core/src/elastic_word.rs:251-293 | repacking a repacked plane to any width has exactly the outcome of repacking the original, errors included |
| ElasticWord.RepackRoundTrip | crates/elastic-core/src/elastic_word.rs:251-293 | repacking there and back returns the original plane |
| Sml.PayloadSize | crates/elastic-adapters/src/sml.rs:412-420 | the payload is the fewest bytes holding the page's bits, and its overflow checks cannot fail |
| Sml.CheckPage | crates/elastic-adapters/src/sml.rs:215-259 | the per-page checks pass exactly for a new page that obeys the page rules |
| SmlLaws.PageRulesInFields | crates/elastic-adapters/src/sml.rs:215-259 | the page rules, field by field |
| SmlLaws.PageErrors | crates/elastic-adapters/src/sml.rs:215-259 | which rule the per-page checks report, in order, with the numbers that break it |
| Sml.Accumulate | crates/elastic-adapters/src/sml.rs:261-296 | checked accumulation adds the page to all seven sums, or reports overflow exactly when one no longer fits |
| SmlLaws.TotalIsSums | crates/elastic-adapters/src/sml.rs:261-296 | each of the seven aggregates is the sum, over exactly the pages it is about, of payload bytes, parameters, parameter bits or one: resident on a tier, moved to a tier from elsewhere, active, or changing precision |
| SmlLaws.MovedBytes | crates/elastic-adapters/src/sml.rs:284-296 | bytes resident on a tier are those moved there and those that stay; a plan that moves no page moves no bytes, and one wholly from disk moves every resident byte |
| SmlLaws.FitsInNumbers | crates/elastic-adapters/src/sml.rs:261-296 | the byte, parameter and change counts are checked against 64 bits and the storage bits against 128 |
| Sml.CheckTotals | crates/elastic-adapters/src/sml.rs:299-354 | the closing checks pass exactly when the ceilings hold and all seven declared aggregates match |
| SmlLaws.TotalsErrors | crates/elastic-adapters/src/sml.rs:299-354 | which ceiling or aggregate the closing checks report, in order, with both numbers |
| Sml.Validate | crates/elastic-adapters/src/sml.rs:189-355 | validation accepts exactly the plans with the right identity, lawful distinct pages and aggregates equal to the unbounded sums within the ceilings, and otherwise reports the first failing check |
| SmlLaws.AcceptableInFields | crates/elastic-adapters/src/sml.rs:189-355 | the accepted plans, field by field and with the sums over pages |
| SmlLaws.HeaderErrors | crates/elastic-adapters/src/sml.rs:192-203 | a wrong contract is reported first, then a wrong source commit, then what is wrong with the pages |
| SmlLaws.FirstPageErrors | crates/elastic-adapters/src/sml.rs:214-296 | then the first page that breaks a rule, repeats a page or makes a sum overflow, and its first broken rule |
| SmlLaws.ClosingErrors | crates/elastic-adapters/src/sml.rs:299-354 | the closing checks are reported only when no page is at fault |
| Sml.AcceptancePermutes | crates/elastic-adapters/src/sml.rs:189-355 | acceptance does not depend on the order of the transitions |
| Sml.AcceptedPlan | crates/elastic-adapters/src/sml.rs:189-355 | an accepted plan stores its active bits within its RAM and VRAM bytes, moves no more bytes to a tier than the tier holds, and has no more active parameters than active bits |

## Left out

- `u64` masks are sets of bit positions. `MachineWords` proves that reading for 64-bit vectors and `MachineKernels` proves both kernels over them; the stores and compilers are not themselves written over bit-vectors.
- The `u64` hash state is a number with its wrap-around written out; the exclusive-or with a byte is computed digit by digit.
- Testing bit `i` of an assignment counter is modelled as the parity of the counter halved `i` times.
- Rust's `sort_by`, `dedup`, `BTreeSet` and `binary_search`: insertion sort, a set and a linear search stand for them, with the same results on sorted distinct keys.
- The closures handed to `universal` are a datatype of queries; a caller-written closure is not modelled.
- `usize` limits other than the overflow checks the code makes, and allocation failure; the classical oracle's `checked_shl` cannot overflow below its cap of 20 variables.
- The errors of the engine are one datatype instead of one enum per module wrapped into the next.
- A `GuardFactSource` is a function of the key; how evidence is acquired is not modelled.
- `GuardScope`, `TransitionGuard` and `GuardedResourceSpec`: binding a guard to a resource needs `ResourceSpec`, which is not part of this model.
- `plan_width_transition`, `zeroed` and `as_lanes_mut` of a plane: one guard condition, an allocation and an accessor.
- The projection of an SML transition into a `RepresentationTransition`, and the generation and epoch fields a plan carries without checking them.
- `Display`, `Error`, serde shapes, accessors, the command line tool, planners, permits, actuation and the other adapters.
- Fingerprint collisions in general: a 64-bit hash has them; only streams one byte apart are shown not to collide.
