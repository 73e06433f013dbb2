# Verified models of BaristaScript's analyses and tools

BaristaScript is a scripting front end for Godot. This project models the parts of
it that promise something about all programs or all runs, and proves what they
promise, or exactly when they keep the promise.

## What is modelled

**Finals** (`Syntax`, `FinalResolution`, `DefiniteAssignment`, `AssignmentRuns`,
`Effects`, `ReadSoundness`, `WriteOnce`, `AssignmentExactness`, `LateAccesses`,
`LoopPasses`, `FinalWrites`, `FinalStores`, `FinalMembers`, `FlattenedBodies`,
`FinalConstruction`, `FinalImmutability`, `FinalLoopholes`, `FinalCheck`). The
abstract interpreter for `final` variables, statement by statement, with its join,
the driver that checks construction, flattening of traits and the scan for later
writes. A semantics of runs stands beside it: a path fixes every branch, round,
short-circuit and early end, so a statement about all paths is one about all runs.
Runs also follow late accesses, which reach a final without denoting it. Some find
their target only at run time: an index or an attribute on what may be the object,
and members that a call looks up by a string; a name that is written out reaches the
final of that name only, and on `self` it always does. Others store into a part of a
final that holds its value in place, as `v.x = 1` does for a vector `v`. What is
said of an analysis and its runs holds with such accesses followed by both or by
neither; `LateAccesses` and `FinalConstruction` compare the check, which does not
follow them, with the runs, which do. The results go both ways: an accepted body
never goes wrong, and a rejected one has a run that does, where loops write no
tracked final; with other loops a loop-aware flow is the exact condition, and what
the analysis decides is exact for runs in which no loop goes round twice. Over the
life of an object every call counts: of methods, accessors, lambdas, and of the
initializing function again.

**Flow narrowing** (`NarrowedTypes`, `FlowNarrowing`, `NarrowedRuns`,
`NarrowedReads`, `StaleNarrowings`, `NarrowingContext`). Unions, nullable types and
bounded parameters with a meaning as sets of values; reduction of conditions and
narrowing by their outcome; and whole bodies, where the types that reads are given
are compared with the values they get.

**Callables** (`CallableSignatures`, `CallableBinds`, `CallableChains`). The
compressed signature that `bind`, `bindv`, `unbind` and `rpc_id` rewrite, and the
tree of bound and unbound callables that it has to describe. `bind(a, b)` and
`bindv([a, b])` run the same code on the same list and are one operation here.

**Named arguments** (`NamedArguments`), **trait signatures** (`TraitSignatures`) and
**conformances** (`LoadedDependencies`, `ConformanceVisibility`,
`ConformanceTable`).

**Tools** (`StopProtocol`, `StopHistories`, `StopProgress`, `Patching`,
`Publication`, `CorpusStream`, `ShardCoverage`, `Envelope`, `UniversalArtifacts`).
The stop protocol is a state machine in which every access to shared state is a step
of its own and a schedule is any sequence of steps.

Where the source changes state, a method with the same loops is proved equal to a
function, and the theorems are about the function.

## What turned out not to hold

- A loop body is analysed once, so a loop may assign a final twice
  (`LoopCanWriteTwice`), and some loops are rejected that never do
  (`LoopCanBeRejectedNeedlessly`). The exact condition is
  `WritesOnceIffFlowSaysSo`; for one round of each loop the analysis is exact
  (`OnePassIsExact`), unless a loop is left or continued from a branch inside,
  which hides what that branch wrote (`LeavingFromBranchWritesTwice`).
- The scan for later writes does not look under casts, awaits, type tests, tuples,
  parameter defaults and match patterns; a lambda there can write a final
  (`HiddenLambdaWrites`).
- Neither the scan nor the analysis follows accesses that find their target only at
  run time: `self["x"]` reads and writes a final unnoticed (`IndexReadsEarly`,
  `IndexWritesTwice`, `IndexedStoreWrites`), and a body that assigns its final so is
  rejected (`NamedStoreIsRejectedNeedlessly`).
- Nor do they count a store into a part of a final as an assignment to it, although
  `v.x = 1` changes the slot of a vector `v` in place (`PartStoreWritesTwice`,
  `PartStoreWrites`). The exact conditions are in `CheckedBodiesRunWell` and, for
  construction, in `CheckedConstructionRunsWell`.
- Nothing stops a method, or the initializing function itself, from calling the
  initializing function again (`SecondInitWrites`, `ConstructionWritesAgain`). The
  exact conditions under which each final is written once are
  `ImmutableIffCallablesAreClean` and `LifeIsExact`, and for accepted classes
  `AcceptedFinalsAreImmutable` and `AcceptedLife`.
- As soon as some arity of a bound variadic callable is proven to fit, arities that
  are merely possible are dropped (`UntypedBindLosesAnArity`). The exact condition
  is in `VariadicBindIsExactIff` and `VariadicBindIsDescribedIff`.
- Signature matching does not compare a required rest parameter with further fixed
  parameters of the implementation (`MatchCanMissFurtherParameters`). The exact
  condition is in `MatchMeansSubstitutable`.
- Nor does it compare a missing result with one that is not declared: a method that
  returns nothing is accepted for a soft `int` (`MatchCanReturnNothing`). The exact
  condition is in `MatchedResultsFit`.
- After an `if` or a `while` the whole table of narrowed types is put back, also
  for variables that the block assigned (`StaleNarrowingIsUnsound`). Such an entry
  does harm only if some path reads it (`BodiesWithoutStaleReadsAreTyped`), and
  where conditions tell nothing it does so on every such path
  (`OpaqueBodiesAreTypedIff`). An analysis that kept such variables out would need
  no condition (`CarefulBodiesAreTyped`).
- An interruption that arrives between a replacement of a file and the line that
  notes it is not undone by rollback (`UnrecordedMoveIsLost`,
  `UnrecordedPublication`), although the handler catches interruptions.
- Deleting text cannot be undone by a list of changes
  (`InverseIsAcceptedIffNothingWasDeleted`).

## Model

| member | source | states |
|---|---|---|
| DefiniteAssignment.MergeLaws | src/bs_analyzer_flow_finality.cpp:118-147 | Joining two branches is commutative, associative and idempotent, an unreachable branch contributes nothing, and the join is reachable when either branch is |
| DefiniteAssignment.MergeBranches | src/bs_analyzer_flow_finality.cpp:118-147 | The in-place merge of two states into a third leaves the join of their old values there, also when the third is one of the two |
| DefiniteAssignment.Analyzer.CheckReads | src/bs_analyzer_flow_finality.cpp:979-1066 | Walking an expression reports exactly the finals that some evaluation of it could read and that are not definite yet |
| DefiniteAssignment.Analyzer.AnalyzeMatch | src/bs_analyzer_flow_finality.cpp:1158-1201 | The loop over match arms reaches the joined state of the arms, with fall-through unless an unguarded catch-all ends it |
| DefiniteAssignment.Analyzer.AnalyzeNode | src/bs_analyzer_flow_finality.cpp:1097-1261 | One statement changes the state in place to what the analysis function says and adds its diagnostics to the earlier ones |
| DefiniteAssignment.Analyzer.AnalyzeBlock | src/bs_analyzer_flow_finality.cpp:1263-1273 | The same for a suite, statement by statement |
| FinalResolution.EvaluationReadsOnly | src/bs_analyzer_flow_finality.cpp:979-1066 | However operators short-circuit, an evaluation reads no final that the read check does not look at |
| FinalResolution.EveryReadHappens | src/bs_analyzer_flow_finality.cpp:979-1066 | Every final the read check looks at is read by some evaluation, so that the check is no coarser than the expression |
| FinalResolution.FinalsAreClaimedOnce | src/bs_analyzer_flow_finality.cpp:718-850 | Every access that name resolution resolves to a final is claimed by exactly one of the checks of local, instance and static finals, and all agree on the variable |
| FinalResolution.OthersAreNotClaimed | src/bs_analyzer_flow_finality.cpp:718-850 | What resolves to no final is claimed by no check, except for self with the name of a tracked final |
| FinalResolution.OwnSlotsAre | src/bs_analyzer_flow_finality.cpp:718-850 | Which expressions are slots of a final of the object itself: bare names resolved to it, and self with its name or with an attribute resolved to it |
| FinalResolution.BasesAreLookedAt | src/bs_analyzer_flow_finality.cpp:979-1066 | The base of an attribute is looked at, unless the attribute is a final of self or an own static final |
| AssignmentRuns.AnalysisGrows | src/bs_analyzer_flow_finality.cpp:1097-1273 | A statement only adds the finals it can write; while it stays reachable no definite or possible final is lost |
| AssignmentRuns.RunKeeps | src/bs_analyzer_flow_finality.cpp:1097-1273 | A run keeps what was written, apart from finals it declares anew, and adds only what the statement can write |
| ReadSoundness.StatementIsSafe | src/bs_analyzer_flow_finality.cpp:1097-1261 | For an accepted statement, along every path: no final is read before it is written, and falling through leaves at least the definite finals written |
| ReadSoundness.SuiteIsSafe | src/bs_analyzer_flow_finality.cpp:1263-1273 | Read soundness of whole suites: any branch choices, any number of loop rounds, break, continue, return, match fall-through, calls that do not return, and runs cut short |
| ReadSoundness.CompoundAssignmentIsRejected | src/bs_analyzer_flow_finality.cpp:1117-1121 | A compound assignment to a tracked final is always reported: the final is either written already or read unwritten |
| WriteOnce.FlowDistributes | src/bs_analyzer_flow_finality.cpp:1140-1157 | The exact loop-aware flow commutes with finals written earlier, which is why one pass over a loop body can be enough |
| WriteOnce.HeadIsStable | src/bs_analyzer_flow_finality.cpp:1140-1157 | After one pass over a loop body its head is a fixed point |
| WriteOnce.FlowCovers | src/bs_analyzer_flow_finality.cpp:1097-1261 | Every run stays within the flow: its exit, what it wrote, and each second write it makes |
| WriteOnce.ExitIsReached | src/bs_analyzer_flow_finality.cpp:1097-1261 | Every exit the flow allows is taken by some run that writes a chosen final if the flow says it may |
| WriteOnce.SecondWriteHappens | src/bs_analyzer_flow_finality.cpp:1106-1125 | Every second write the flow names is made by some run, which is returned |
| WriteOnce.WritesOnceIffFlowSaysSo | src/bs_analyzer_flow_finality.cpp:1097-1273 | For every body and every kind of loop: no run writes a final twice, as a whole or in part, if and only if the flow finds no final that may be |
| AssignmentExactness.AnalysisAgreesWithFlow | src/bs_analyzer_flow_finality.cpp:1097-1261 | Where loops write no tracked final, the analysis reports a second write exactly where the exact flow does |
| AssignmentExactness.MissingFinalHappens | src/bs_analyzer_flow_finality.cpp:1126-1139 | A final that is not definite behind a statement is missing in some run that falls through |
| AssignmentExactness.DiagnosedFaultHappens | src/bs_analyzer_flow_finality.cpp:1202-1215 | Every report of an early read or an early return is backed by a run that makes that fault |
| AssignmentExactness.AcceptedIffNoRunFaults | src/bs_analyzer_flow_finality.cpp:1263-1273 | A suite whose loops write no tracked final is accepted if and only if no run of it reads too early, writes twice or returns too early |
| AssignmentExactness.AcceptedWithLoops | src/bs_analyzer_flow_finality.cpp:1140-1157 | With loops of any kind, acceptance rules out early reads and returns, and rules out second writes exactly when the flow finds none |
| AssignmentExactness.DefiniteIsExact | src/bs_analyzer_flow_finality.cpp:1126-1157 | Behind an accepted suite the definite finals are exactly those that every run falling through has written |
| AssignmentExactness.LoopCanWriteTwice | src/bs_analyzer_flow_finality.cpp:1140-1148 | A loop body is analysed once, so a loop that assigns a final is accepted although two rounds write it twice |
| AssignmentExactness.LoopCanBeRejectedNeedlessly | src/bs_analyzer_flow_finality.cpp:1140-1148 | Conversely a loop that assigns and returns, followed by an assignment, is rejected although every run writes once |
| LoopPasses.WrittenIsPossible | src/bs_analyzer_flow_finality.cpp:1140-1157 | However often loops go round, a run that falls through has written no tracked final but those that the analysis calls possible, unless a loop is left or continued from a branch inside |
| LoopPasses.ReportedWriteHappens | src/bs_analyzer_flow_finality.cpp:1106-1157 | Every report of a second write is backed by a run that makes it and goes round no loop twice, where loops run through |
| LoopPasses.AcceptedOnePassIsClean | src/bs_analyzer_flow_finality.cpp:1140-1157 | Also where loops write tracked finals, an accepted suite goes well in every run in which no loop goes round twice, unless a loop is left or continued from a branch inside |
| LoopPasses.OnePassIsExact | src/bs_analyzer_flow_finality.cpp:1140-1157 | One pass over each loop body is what the analysis decides: a suite whose loops run through is accepted if and only if no run goes wrong in which no loop goes round twice |
| LoopPasses.LeavingFromBranchWritesTwice | src/bs_analyzer_flow_finality.cpp:1202-1207 | A loop that assigns and breaks in a branch hides that write: a second one behind the loop is accepted |
| LateAccesses.CheckedBodiesRunWell | src/bs_analyzer_flow_finality.cpp:979-1273 | With late accesses followed by runs but not by the check: no run of a suite goes wrong exactly if a check that followed them would accept it; a rejected suite has a run that goes wrong unless it assigns a final by its name on self; without late accesses the check itself is exact |
| LateAccesses.SuiteWidens | src/bs_analyzer_flow_finality.cpp:1263-1273 | Unless a final is assigned by its name on self, the check accepts no less than one that follows late accesses, and says the same of suites without them |
| LateAccesses.IndexReadsEarly | src/bs_analyzer_flow_finality.cpp:824-849 | An index on self denotes no final: a read of an unwritten final through it is accepted |
| LateAccesses.IndexWritesTwice | src/bs_compiler_expressions.cpp:733-806 | A second write through an index on self is accepted |
| LateAccesses.NamedStoreIsRejectedNeedlessly | src/bs_analyzer_flow_finality.cpp:1106-1125 | An assignment to an index on self by the name of a final is no assignment to the check: a read behind it is rejected although no run goes wrong |
| LateAccesses.PartStoreWritesTwice | src/bs_compiler_expressions.cpp:733-806 | A store into a part of a final that holds a vector works on the slot of the final: a second write through it is accepted |
| FinalMembers.FlattenKeepsFirstOfEachName | src/bs_analyzer_flow_finality.cpp:80-116 | Of a list of trait members and any set of defined names: one is received exactly if it can be handed on, is the first of its name and is not defined |
| FinalMembers.FlattenedNamesDiffer | src/bs_analyzer_flow_finality.cpp:80-116 | Received members have pairwise different names, none of them defined by the class or its bases |
| FinalMembers.DefinedNamesAreDeclared | src/bs_analyzer_flow_finality.cpp:88-96 | The names that trait members must not have are those of the members of the class and of every class up the chain of its bases |
| FinalMembers.ReceivedIffFirst | src/bs_analyzer_flow_finality.cpp:80-116 | A class receives a trait member exactly if it can be handed on, no class of that chain declares its name, and no earlier member that can be handed on, of any applied trait, has that name |
| FinalMembers.ReceivedInOrder | src/bs_analyzer_flow_finality.cpp:98-115 | Received members keep the order of the traits and of the members in them |
| FinalMembers.AcceptedIff | src/bs_analyzer_flow_finality.cpp:149-344 | A class is accepted if and only if its finals have no accessors and are not onready, no assignment stands where it may not, construction is accepted, and so is every inner class |
| FinalMembers.FinalsAre | src/bs_analyzer_flow_finality.cpp:149-223 | The tracked finals of a class are those that it declares or receives, of the kind that the scope asks for, without accessors and not onready, except that a static one from a trait may be |
| FinalMembers.NamedFinalsAre | src/bs_analyzer_flow_finality.cpp:149-223 | By name each tracked final is found that is the last of its name |
| FinalMembers.InitIs | src/bs_analyzer_flow_finality.cpp:149-223 | The initializing function is the last own one of its name; only a class without one takes that of a trait |
| FinalMembers.CollectFlattenedTraitMembers | src/bs_analyzer_flow_finality.cpp:80-116 | The collecting loops over bases and traits produce exactly the flattened members, in order |
| FlattenedBodies.ReceivedBodiesAreChecked | src/bs_analyzer_flow_finality.cpp:718-850 | Checking a body received from a trait, reads, assignments and later writes alike, gives what checking it would give with every bare or self name bound to the slot of the class |
| FlattenedBodies.TargetsAgree | src/bs_analyzer_flow_finality.cpp:718-850 | The rules for flattened bodies give each expression the target, and the finals in reach, that its rebound form has under the ordinary rules |
| FinalConstruction.ConstructionAssignsEveryFinal | src/bs_analyzer_flow_finality.cpp:269-336 | For every class that the check with late accesses accepts, and every construction, initializers, parameter defaults and _init read no tracked final too early, and each return or fall-through of _init leaves all of them written |
| FinalConstruction.ConstructionIsExact | src/bs_analyzer_flow_finality.cpp:269-336 | If the loops of _init write no tracked final, that check accepts if and only if the run that construction starts never reads too early, writes twice or ends with a final unwritten |
| FinalConstruction.CheckedConstructionRunsWell | src/bs_analyzer_flow_finality.cpp:269-336 | No construction of a class goes wrong exactly if the check with late accesses accepts it; a class that the check of the source rejects has a construction that goes wrong unless _init assigns a final by its name on self; without late accesses that check is exact |
| FinalConstruction.AcceptedConstructionWithLoops | src/bs_analyzer_flow_finality.cpp:312-329 | With loops of any kind, an accepted construction writes each final exactly once if and only if the flow finds no second write in _init |
| FinalConstruction.RejectedConstructionFaults | src/bs_analyzer_flow_finality.cpp:269-336 | A rejected class has a construction that goes wrong, which is returned |
| FinalWrites.Scanner.VisitExpression | src/bs_analyzer_flow_finality.cpp:852-977 | The scan of an expression adds exactly the illegal targets it can see, lambdas included |
| FinalWrites.Scanner.VisitStatement | src/bs_analyzer_flow_finality.cpp:852-977 | The same for a statement |
| FinalWrites.StatementIsScanned | src/bs_analyzer_flow_finality.cpp:852-977 | A scan that looks everywhere bounds the effects of every run of a statement: each assignment, lambda, mention of a method and member set by a string along its path |
| FinalWrites.FoundInStatementHappens | src/bs_analyzer_flow_finality.cpp:852-977 | Whatever such a scan finds in a statement, some run of it brings about, by itself or through a lambda it creates; unreachable statements count for nothing |
| FinalWrites.NeverWrittenIffCallablesAreClean | src/bs_analyzer_flow_finality.cpp:852-977 | Over all histories of calls, each call a run along some path, no call writes a final that it may not if and only if every callable is clean: no resolved write, no late write, and no mention of an initializing function that writes some |
| FinalWrites.ScanSeesWhatIsInSight | src/bs_analyzer_flow_finality.cpp:852-977 | Where no lambda hides under a cast, an await, a type test or a tuple, the scan that is run finds every resolved write that a scan looking everywhere finds |
| FinalStores.MisplacedStoreIsFound | src/bs_analyzer_flow_finality.cpp:852-977 | If some call assigns a final that is not tracked here, is not of the object itself, or outside the body that construction runs, a scan that looks everywhere finds it in one of the bodies there were to begin with, whichever lambda made the assignment; of every scope |
| FinalStores.FoundStoreIsMisplaced | src/bs_analyzer_flow_finality.cpp:852-977 | What such a scan finds, some call assigns where it may not; the calls are returned |
| FinalStores.AllStandWellIffNothingIsFound | src/bs_analyzer_flow_finality.cpp:852-977 | No history of calls assigns a final where it may not be assigned if and only if such a scan finds nothing |
| FinalStores.LocalFinalsStayInTheirFunction | src/bs_analyzer_flow_finality.cpp:852-977 | The scan for the local finals of a function without dead code is clean if and only if no lambda that any call creates ever assigns one of them |
| FinalImmutability.ImmutableIffCallablesAreClean | src/bs_analyzer_flow_finality.cpp:224-267 | Finals are immutable, over every history of method, accessor, lambda and further initializing calls and with flattened bodies, if and only if all bodies of the class are clean |
| FinalImmutability.AcceptedFinalsAreImmutable | src/bs_analyzer_flow_finality.cpp:224-267 | In an accepted class whose lambdas are in sight, finals are immutable if and only if no body writes one by a late access or names an initializing function that writes some |
| FinalImmutability.MisplacedStoreIsReported | src/bs_analyzer_flow_finality.cpp:893-905 | An assignment to a final that some call of a method, an accessor or a lambda makes is reported unless it is to a tracked final, on the object itself, in the body that construction runs |
| FinalImmutability.ReportedStoreHappens | src/bs_analyzer_flow_finality.cpp:852-977 | Without dead code, for every final that is reported some calls of the bodies of the class make such an assignment; they are returned |
| FinalImmutability.AcceptedStoresAreOwn | src/bs_analyzer_flow_finality.cpp:893-905 | In an accepted class every assignment to a final is one that construction makes to a final of its own object |
| FinalImmutability.LifeIsExact | src/bs_analyzer_flow_finality.cpp:149-344 | Each final is written exactly once in the life of an object, calls made in the middle of construction included, if and only if construction is accepted with late accesses and all bodies are clean |
| FinalImmutability.AcceptedLife | src/bs_analyzer_flow_finality.cpp:149-344 | The same for an accepted class with loops of any kind: if and only if the flow finds no second write in _init and no body writes late or names _init to that end |
| FinalLoopholes.HiddenLambdaWrites | src/bs_analyzer_flow_finality.cpp:909-914 | A lambda under a cast escapes the scan: an accepted class whose method writes a final |
| FinalLoopholes.IndexedStoreWrites | src/bs_analyzer_flow_finality.cpp:824-849 | An assignment to an index on self escapes the scan: an accepted class whose method writes a final |
| FinalLoopholes.PartStoreWrites | src/bs_analyzer.cpp:9007-9034 | So does an assignment to a part of a final that holds a vector, which is refused for read-only bases but not for finals: an accepted class whose method changes a final |
| FinalLoopholes.SecondInitWrites | src/bs_analyzer.cpp:4247-4275 | A method may call _init again: an accepted class that writes its final once more |
| FinalLoopholes.ConstructionWritesAgain | src/bs_analyzer.cpp:4247-4275 | So may _init itself: an accepted class whose construction writes its final in two calls |
| FinalCheck.CheckInit | src/bs_analyzer_flow_finality.cpp:312-329 | The check of _init, its parameter defaults and the blank finals behind it, as one method over mutable state |
| FinalCheck.CheckConstruction | src/bs_analyzer_flow_finality.cpp:269-336 | The whole check of construction as it runs reports exactly the specified diagnostics |
| FinalCheck.CheckFinalAssignments | src/bs_analyzer_flow_finality.cpp:149-344 | The check of a class and its inner classes, loop by loop, reports exactly the specified diagnostics; with the static scope it is the check of static finals |
| CallableSignatures.CheckCount | src/bs_analyzer_call_validation.cpp:61-77 | The loop decides whether a count lies between minimum and maximum or is one of the extra arities |
| CallableSignatures.ReportsArity | src/bs_analyzer_call_validation.cpp:237-281 | Too few or too many arguments are reported exactly when the count is not accepted, and never both for the wrong side |
| CallableSignatures.RpcIdAddsOneArgument | src/bs_analyzer_call_validation.cpp:1439-1453 | rpc_id admits n arguments exactly when the target admits n-1 |
| CallableSignatures.BindFixedArity | src/bs_analyzer_call_validation.cpp:1398-1437 | The loops over default shifts and extra arities compute the bound signature; every slot index stays in range |
| CallableSignatures.BindFixedIsExact | src/bs_analyzer_call_validation.cpp:1496-1607 | Fixed arity: the result admits n exactly when the source admits n plus the bound values and either all parameters are supplied or no bound value conflicts with its slot |
| CallableSignatures.BindFixedIsValid | src/bs_analyzer_call_validation.cpp:1398-1437 | The result keeps the signature invariant, extra arities below the default range |
| CallableSignatures.BindVariadicCallable | src/bs_analyzer_call_validation.cpp:1216-1396 | The loops of the variadic bind compute the specified result |
| CallableBinds.VariadicBindIsSound | src/bs_analyzer_call_validation.cpp:1216-1396 | Every arity an error-free bind admits is one the source admits with the bound values, where none of them conflicts with its parameter or rest slot |
| CallableBinds.VariadicBindIsComplete | src/bs_analyzer_call_validation.cpp:1216-1396 | Every arity at which all bound values are known to fit is admitted, also when a conflict in the rest tail drops the variadic tail |
| CallableBinds.VariadicTail | src/bs_analyzer_call_validation.cpp:1340-1389 | The variadic tail survives exactly if the bound values cause no conflict at or above the fixed arity |
| CallableBinds.ReportsIffNothingIsPossible | src/bs_analyzer_call_validation.cpp:1340-1389 | A bind of a variadic callable reports an error exactly if it leaves nothing: no number of further arguments is enough without a conflict of some bound value |
| CallableBinds.VariadicBindAdmits | src/bs_analyzer_call_validation.cpp:1340-1396 | Which arities the compressed result admits: the surviving ones, the tail, and the preserved extra ones |
| CallableBinds.VariadicBindIsExactIff | src/bs_analyzer_call_validation.cpp:1340-1396 | An error-free bind leaves exactly the arities that the source admits with the bound values and at which none conflicts, if and only if every possible arity is proven to fit or none is |
| CallableChains.UnbindCallable | src/bs_analyzer_call_validation.cpp:1609-1641 | unbind appends discarded parameters and shifts the extra arities; a count below one gives a plain callable |
| CallableChains.TypeCallableOperation | src/bs_analyzer_call_validation.cpp:1161-1174 | One operation on a callable type, over-bound and plain callables included |
| CallableChains.BindIsDescribed | src/bs_analyzer_call_validation.cpp:1496-1607 | If a type says exactly which calls of a callable succeed, then so does the bound type of the bound callable, for variadic callables where every possible arity is proven or none is |
| CallableChains.VariadicBindIsDescribedIff | src/bs_analyzer_call_validation.cpp:1340-1396 | That condition cannot be spared: the bound type says which calls of the bound variadic callable succeed if and only if it holds |
| CallableChains.UntypedBindLosesAnArity | src/bs_analyzer_call_validation.cpp:1340-1352 | Binding one untyped value to a variadic callable with a defaulted parameter loses an arity that the callable accepts |
| CallableChains.UnbindIsDescribed | src/bs_analyzer_call_validation.cpp:1609-1641 | The same for unbind |
| CallableChains.ChainsRefineCallables | src/bs_analyzer_call_validation.cpp:1137-1641 | For every function and every chain of error-free unbinds and binds that prove every possible arity or none, the final signature admits n exactly when the callable tree accepts n arguments, and is over-bound exactly when it accepts no number of them |
| NamedArguments.FillSlots | src/bs_analyzer_call_validation.cpp:621-670 | Positional and named arguments fill the slots unless a name is unknown, names the rest or repeats a parameter, and then one of these is the failure |
| NamedArguments.FillGaps | src/bs_analyzer_call_validation.cpp:679-718 | Gaps below the last filled slot get constant defaults exactly if all of them have one |
| NamedArguments.FindOrder | src/bs_analyzer_call_validation.cpp:731-751 | The evaluation order found by searching the slots is the specified one, and is marked as reordered exactly if it is not the identity |
| NamedArguments.OrderIsPermutation | src/bs_analyzer_call_validation.cpp:731-757 | That order visits every argument once, the written ones in written order and the defaults after them |
| NamedArguments.SlotsAreParameters | src/bs_analyzer_call_validation.cpp:636-670 | No argument of an accepted call goes to the rest parameter |
| NamedArguments.Canonicalize | src/bs_analyzer_call_validation.cpp:588-759 | The call is rewritten in place exactly if it is acceptable: each parameter up to the last filled one gets its positional, named or default argument and nothing else is passed; a refused call keeps its arguments and order |
| NamedArguments.AcceptableIff | src/bs_analyzer_call_validation.cpp:588-759 | A call is acceptable if and only if positional arguments come first, every name is that of a parameter other than the rest, none is given twice, and defaults do for the others, constant ones below the last that is given |
| NamedArguments.CanonicalMeans | src/bs_analyzer_call_validation.cpp:679-757 | What an accepted call passes: each positional argument at its position, each named one to the parameter of its name, the constant default to every other parameter up to the last one given, and nothing else |
| TraitSignatures.ValidateTraitMethodSignature | src/bs_analyzer_conformance.cpp:1189-1284 | The accumulating checks accept exactly the matching signatures |
| TraitSignatures.MatchMeansSubstitutable | src/bs_analyzer_conformance.cpp:1235-1284 | For a match and coherent compatibility: every argument list the trait method accepts is accepted by the implementation if and only if what the matching leaves out holds: further fixed parameters take what the required rest takes, and parameters whose required type is not settled take anything |
| TraitSignatures.SubstitutableIffArgumentsMatch | src/bs_analyzer_conformance.cpp:1235-1284 | Where only Variant takes everything, the implementation takes all calls of the trait method if and only if the arguments match and what the matching leaves out holds: nothing that is substitutable is refused |
| TraitSignatures.ResultMatchesIffItFits | src/bs_analyzer_conformance.cpp:1215-1232 | A typed result matches exactly if every value the implementation can return may go where the result of the trait method is expected |
| TraitSignatures.VariantResults | src/bs_analyzer_conformance.cpp:1219-1220 | A Variant result is accepted for Variant only, although it fits every type that takes everything |
| TraitSignatures.MatchedResultsFit | src/bs_analyzer_conformance.cpp:1215-1232 | The result of a matching implementation fits; where it has none, exactly if void may go where the soft result is expected |
| TraitSignatures.FittingImplementationsMatch | src/bs_analyzer_conformance.cpp:1189-1284 | No implementation is refused that takes all calls, has a result that fits and is not nothing for a hard one, and agrees in being static and in the number of type parameters |
| TraitSignatures.MatchIff | src/bs_analyzer_conformance.cpp:1189-1284 | What a match says in all, for an implementation with a typed result: the same in being static and in the number of type parameters, a result that fits, and arguments for every call |
| TraitSignatures.DeclaredVariantsStay | src/bs_analyzer_conformance.cpp:1235-1274 | Whatever compatibility is: what is declared Variant in the trait is Variant in a matching implementation or taken by an untyped rest, and a Variant result answers a Variant only |
| TraitSignatures.UntypedMayBecomeTyped | src/bs_analyzer_conformance.cpp:1243-1250 | Where a Variant may go anywhere, an untyped parameter may become a typed one or part of a typed rest; one declared Variant may not |
| TraitSignatures.MatchCanReturnNothing | src/bs_analyzer_conformance.cpp:1221-1229 | A method without a result is accepted for a soft int |
| TraitSignatures.MatchSuffices | src/bs_analyzer_conformance.cpp:1235-1284 | In particular when no rest is required or the implementation has no more fixed parameters |
| TraitSignatures.MatchCanMissFurtherParameters | src/bs_analyzer_conformance.cpp:1241-1274 | Without that condition a match can lose calls |
| LoadedDependencies.Enqueue | src/bs_analyzer_conformance.cpp:395-442 | The queue grows by exactly the nested files not visited yet |
| LoadedDependencies.RaiseDeclaredConformanceDependencies | src/bs_analyzer_conformance.cpp:369-442 | The work list ends on cyclic load graphs with exactly the script files reachable through parsed files, or the direct ones if nothing is declared, and raises exactly those that parse and declare conformances, or use traits where the file itself declares some |
| ConformanceVisibility.Visibility.CanSee | src/bs_analyzer_conformance.cpp:2220-2266 | A positive answer is right; a negative one is right below the cap on visits; the memo stays correct |
| ConformanceVisibility.Visibility.Explore | src/bs_analyzer_conformance.cpp:2237-2264 | Below the cap every visible file is remembered |
| ConformanceVisibility.Visibility.Visit | src/bs_analyzer_conformance.cpp:2245-2263 | One visit remembers exactly what its parser declares and has pulled in, and queues each new parser once |
| ConformanceVisibility.GrowthKeepsMemo | src/bs_analyzer_conformance.cpp:2234-2236 | Positive answers stay right when the graph grows |
| ConformanceTable.Table.ConflictsInMembership | src/bs_analyzer_conformance.cpp:1755-1788 | An identity conflicts if its pair belongs to another declaration, is the own identity entered before, or is registered by another file |
| ConformanceTable.Table.EnterIdentities | src/bs_analyzer_conformance.cpp:1854-1880 | Entering adds an entry for each identity that this declaration has not entered yet |
| ConformanceTable.Table.Collect | src/bs_analyzer_conformance.cpp:1682-1896 | One declaration changes the table to the specified one |
| ConformanceTable.Table.CollectAll | src/bs_analyzer_conformance.cpp:1674-1897 | All declarations of a file, in order |
| ConformanceTable.TableIsCoherent | src/bs_analyzer_conformance.cpp:1674-1897 | After any declarations: pairs of target and identity differ, declarations for one target provide different methods, and nothing another file provides is entered |
| ConformanceTable.CheckedTraitsAreEntered | src/bs_analyzer_conformance.cpp:1718-1884 | A trait that passes all checks is entered under each of its identities, any other leaves the entries alone |
| ConformanceTable.NoTraitIsDropped | src/bs_analyzer_conformance.cpp:1674-1897 | Whatever a file declares, no trait is silently dropped: it is entered under each of its identities, or its declaration is reported, unless it was left aside or did not validate |
| ConformanceTable.EntriesAreDeclared | src/bs_analyzer_conformance.cpp:1674-1897 | Every entry has the target and the methods of its declaration and is for one of its traits |
| ConformanceTable.EnterAllIsExact | src/bs_analyzer_conformance.cpp:1854-1880 | Exactly the pairs are added that this declaration has not entered yet |
| ConformanceTable.ReportedIff | src/bs_analyzer_conformance.cpp:1718-1830 | A declaration is reported exactly if one of its traits that are considered conflicts in membership, or its methods collide and some trait is considered; no other is |
| ConformanceTable.CollisionsAre | src/bs_analyzer_conformance.cpp:1790-1824 | Methods collide exactly with those of earlier entries for the target or of other files |
| ConformanceTable.ConflictsAre | src/bs_analyzer_conformance.cpp:1755-1788 | An identity conflicts exactly if another file registered it for the target, another declaration has an entry for it, or this one has and it is the trait that is named |
| ConformanceTable.RecordIsOfEntries | src/bs_analyzer_conformance.cpp:1884-1896 | The methods on record for a target are exactly those of the entries for it |
| ConformanceTable.Identities | src/bs_trait_utils.cpp:30-53 | The identities of a trait are its own, first, and those of its supertraits: all of them, each once, none empty |
| ConformanceTable.NamesKeepOrder | src/bs_trait_utils.cpp:38-52 | Supertraits keep the order in which they are first named |
| NarrowedTypes.MakeUnionOf | src/bs_parser_data_type.cpp:172-214 | The loops flatten, remove duplicates, hoist nullability and collapse a single member |
| NarrowedTypes.UnionHoldsAlternatives | src/bs_parser_data_type.cpp:172-214 | The union means the union: it holds exactly the values of its members, and is in normal form |
| NarrowedTypes.FailedTestIsExact | src/bs_analyzer_flow_finality.cpp:1604-1629 | A failed test leaves exactly the alternatives it does not name and never decides about null |
| NarrowedTypes.FailedTestIsSound | src/bs_analyzer_flow_finality.cpp:1604-1629 | A value that fails the test is still a value of the narrowed type |
| NarrowedTypes.FailedTestNarrowsIff | src/bs_analyzer_flow_finality.cpp:1604-1629 | A failed test narrows exactly if it names some of the alternatives but not all of them, those of a bounded parameter included |
| NarrowedTypes.TypeTestExhaustsAlternatives | src/bs_analyzer_flow_finality.cpp:1406-1421 | The loop finds out whether the test names every alternative of a set without null |
| NarrowedTypes.ExhaustingTestCannotFail | src/bs_analyzer_flow_finality.cpp:1406-1421 | An exhausting test never fails, for unions of any form |
| NarrowedTypes.ExhaustsIffItCannotFail | src/bs_analyzer_flow_finality.cpp:1406-1421 | For unions of plain types, or a parameter that one bounds, a test for one type cannot fail exactly if null is not among the values and the test exhausts the alternatives or is for the parameter itself |
| NarrowedTypes.ReportIsExactInNormalForm | src/bs_analyzer_flow_finality.cpp:1406-1421 | In normal form the report is made exactly when no value can fail the test, but for a test for the bounded parameter itself |
| NarrowedTypes.TheUnknownIsNotReported | src/bs_analyzer_flow_finality.cpp:1406-1411 | Nothing is reported of a test for an unknown type, although every value but null passes it, nor of a union of nothing |
| FlowNarrowing.ReducedConditionIsTyped | src/bs_analyzer_flow_finality.cpp:1631-1657 | Every identifier of a condition that is evaluated at all, right operands of nested and included, has a value of the type reduction gave it |
| FlowNarrowing.ApplyIsSound | src/bs_analyzer_flow_finality.cpp:1659-1688 | What an outcome shows is true of every store in which the condition has that outcome |
| FlowNarrowing.ConditionNarrowsSoundly | src/bs_analyzer_flow_finality.cpp:1631-1688 | Reducing a condition and applying an outcome it has in a store keeps the narrowed environment sound for that store |
| FlowNarrowing.NarrowingIsExact | src/bs_analyzer_flow_finality.cpp:1530-1629 | A null check removes null and no more, a passed test leaves the tested type, a failed one the surviving alternatives, and no other variable is touched |
| FlowNarrowing.NothingElseNarrows | src/bs_analyzer_flow_finality.cpp:1659-1688 | A condition without a subject narrows nothing, nor does an `and` that came out false |
| FlowNarrowing.EachConjunctNarrows | src/bs_analyzer_flow_finality.cpp:1659-1671 | A condition that came out true narrows by each of its conjuncts, through any nesting of `and`: the last conjunct about a local leaves it the type that says all that this conjunct shows |
| FlowNarrowing.OtherVariablesKeepTheirTypes | src/bs_analyzer_flow_finality.cpp:1659-1671 | A local that no conjunct is about keeps its type |
| NarrowedReads.ConjunctsReadAsKnown | src/bs_analyzer_flow_finality.cpp:1631-1657 | Each conjunct of a reduced condition is typed with what the conjuncts before it show |
| NarrowedReads.ConditionIsReduced | src/bs_analyzer_flow_finality.cpp:1631-1657 | Reduction changes nothing but types |
| NarrowedReads.StatementsAreTypedAsKnown | src/bs_analyzer.cpp:6096-6121 | Every statement of a body, however deep, is analysed with exactly what the outcomes, assertions and assignments on the way to it show |
| NarrowedReads.ReadsAreTypedAsKnown | src/bs_analyzer.cpp:6096-6121 | So a read gets the type that is known of its local at that place |
| NarrowedReads.AssignmentsForget | src/bs_analyzer.cpp:9572-9580 | An assignment makes everything forgotten that was known of its target, and nothing else |
| NarrowingContext.FlowContext.ReduceConditionExpression | src/bs_analyzer_flow_finality.cpp:1631-1657 | Reduction narrows for the right operand and puts the table back |
| NarrowingContext.FlowContext.ApplyFromCondition | src/bs_analyzer_flow_finality.cpp:1659-1688 | The table becomes the specified one |
| NarrowingContext.FlowContext.ApplyFailedTypeTest | src/bs_analyzer_flow_finality.cpp:1604-1629 | The loop over alternatives narrows to the survivors |
| NarrowingContext.FlowContext.AnalyzeStatement | src/bs_analyzer.cpp:6096-6121 | Statements narrow for their blocks and restore the table behind them, exactly as specified |
| NarrowedRuns.StaleNarrowingIsUnsound | src/bs_analyzer.cpp:6103-6119 | Restoring the whole table is unsound: assert non-null, assign null in a branch, and the read behind it is typed without null |
| StaleNarrowings.BodiesWithoutStaleReadsAreTyped | src/bs_analyzer.cpp:6096-6121 | If no path leads from an assignment in a block to a read of an entry that was put back behind it, every read of every run gets a value of the type it was analysed with |
| StaleNarrowings.OpaqueBodiesAreTypedIff | src/bs_analyzer.cpp:6096-6121 | Where conditions can have either outcome and each entry excludes some value, a body is typed in every run if and only if no path leads to a stale read |
| StopProtocol.Reachable | scripts/run_corpus_triage.py:659-803 | The invariant of workers, lock, processes, projects, cases and report holds after every schedule of single steps |
| StopProtocol.SweptProcessesAreKilled | scripts/run_corpus_triage.py:675-695 | Once the locked sweep is over, whoever gets the lock finds every live process killed, later ones included |
| StopProtocol.KilledCasesAreNotPublished | scripts/run_corpus_triage.py:717-720 | No case whose process was signalled is ever published as a result, and one published as stopped was signalled |
| StopProtocol.ProjectsAreNeitherSharedNorLost | scripts/run_corpus_triage.py:697-758 | Each staged project is idle or held by one worker, none is lost, and no worker waits for one |
| StopProtocol.FewProcessesStartLate | scripts/run_corpus_triage.py:697-700 | After the stop at most one more process starts per worker |
| StopProtocol.CompletedRunsAreWhole | scripts/run_corpus_triage.py:780-791 | A run that completes has a result for every selected case, nothing was killed and no process is left |
| StopProtocol.StoppedRunsAreAccountedFor | scripts/run_corpus_triage.py:792-803 | A stopped run leaves no process behind and reports each case for what it is |
| StopHistories.AliveIff | scripts/run_corpus_triage.py:659-803 | The processes that are alive are exactly those that some step of the schedule has started and none has ended |
| StopHistories.EveryProcessEnds | scripts/run_corpus_triage.py:780-803 | When a run has completed or was stopped, every process that any step started has ended |
| StopHistories.EachStartsLateOnce | scripts/run_corpus_triage.py:697-700 | Two steps that start a process after the stop are of different workers |
| StopHistories.FailuresStop | scripts/run_corpus_triage.py:742-749 | Once a case has failed the stop event is set |
| StopHistories.FailedWorkersStartNothing | scripts/run_corpus_triage.py:742-749 | A worker that has failed starts no process any more, although it gets its next case before the supervisor hears of the failure |
| StopHistories.BrokenProcessesAreNotPublished | scripts/run_corpus_triage.py:716-749 | What a process left behind that did not end well is never published |
| StopProgress.EveryStepLeadsOn | scripts/run_corpus_triage.py:659-803 | Every step of a run leaves less to do, so no schedule keeps taking steps for ever |
| StopProgress.NoRunIsStuck | scripts/run_corpus_triage.py:659-803 | Until the supervisor is done some step can be taken, which is returned |
| StopProgress.RunsCanComplete | scripts/run_corpus_triage.py:780-791 | With a worker and a project there is a schedule after which every selected case has its result |
| Patching.Patch | scripts/import_analyzer_corpus.py:97-122 | The checks and the back-to-front splicing give the specified result or the first error |
| Patching.SpliceBackToFront | scripts/import_analyzer_corpus.py:120-122 | Splicing from the last change to the first equals splicing from the first to the last |
| Patching.PatchReplacesAllAtOnce | scripts/import_analyzer_corpus.py:97-122 | A list is accepted exactly if every change is well formed, in bounds and matches, and none overlap; the result is the simultaneous replacement |
| Patching.AcceptedIffTrueAndApart | scripts/import_analyzer_corpus.py:97-122 | A list is accepted if and only if every change in it is true of the data and no two of them touch the same byte |
| Patching.FirstErrorIs | scripts/import_analyzer_corpus.py:99-119 | The error is that of the first change, by position, that is wrong or begins before the one in front of it ends |
| Patching.LinesAreCounted | scripts/import_analyzer_corpus.py:116-118 | The line of a change is one more than the number of newlines in front of it |
| Patching.OrderDoesNotMatter | scripts/import_analyzer_corpus.py:111-122 | The order of the list does not matter |
| Patching.UntouchedBytesKeepTheirLine | scripts/import_analyzer_corpus.py:125-127 | In the line-preserving form a byte no change touches is still there and on the same line |
| Patching.InverseIsAcceptedIffNothingWasDeleted | scripts/import_analyzer_corpus.py:97-139 | The shifted inverse list restores the bytes if no replacement is empty, and is refused otherwise |
| Publication.Publisher.ImportCorpus | scripts/import_parser_corpus.py:586-604 | With no fault every target has its new content; a failing step leaves everything as before; an interruption between a step and its record does so exactly if rollback can undo the step blindly |
| Publication.Publisher.Rollback | scripts/import_parser_corpus.py:595-603 | Published targets are removed in reverse, then backups are put back in reverse until one cannot be |
| Publication.FailedStepIsUndone | scripts/import_parser_corpus.py:586-603 | Rollback restores every target, present or absent, at either step of any output |
| Publication.UnrecordedMoveIsLost | scripts/import_parser_corpus.py:590-592 | Interrupted between moving a target away and writing that down, the target is lost |
| Publication.UnrecordedPublication | scripts/import_parser_corpus.py:593-602 | Interrupted between publishing a target and writing that down, the old one comes back exactly if it can overwrite the new one |
| CorpusStream.ParseWholeCorpusStream | scripts/run_corpus_triage.py:318-350 | The loop over the lines gives the specified stream or refuses it |
| CorpusStream.StreamIsReadBack | scripts/run_corpus_triage.py:318-350 | A stream is accepted exactly if its case lines are guarded results and nothing else, and of the plans and of the completions at most the last one is not null; the pairs are recovered through any other lines |
| ShardCoverage.SlicesTile | tests/native/corpus_helpers.cpp:846-856 | The slices tile the population in order and differ in length by at most one |
| ShardCoverage.EachPositionHasOneShard | tests/native/corpus_helpers.cpp:846-856 | Whatever is asked for, a position has a shard exactly if it belongs to the population and there are shards, and it never has two |
| ShardCoverage.RequireShardedCompletion | scripts/run_corpus_triage.py:353-414 | The checks accept exactly the covering runs and return the concatenated cases |
| ShardCoverage.AcceptedIff | scripts/run_corpus_triage.py:353-414 | A run is accepted if and only if its shards are numbered from zero, each tells of this run and of as many cases as it emitted, each starts where those before it end, and together they emitted the selected cases |
| ShardCoverage.AcceptedRunsCoverEverything | scripts/run_corpus_triage.py:402-414 | For an accepted run the planned slices partition the population in shard order, each slice of the result is what its shard evaluated, and the result is a permutation of the selected cases |
| ShardCoverage.EachCaseRanOnce | scripts/run_corpus_triage.py:410-414 | Every selected case ran exactly once |
| ShardCoverage.HonestShardIsRead | tests/native/corpus_helpers.cpp:858-902 | The output of a shard that runs to its end is read back as a whole record of its slice |
| ShardCoverage.HonestRunsAreAccepted | scripts/run_corpus_triage.py:353-414 | A run in which every shard does its part and reports once is accepted, whatever the order of the records and of the run, and gives back the population in the order of the run |
| Envelope.HexRoundTrip | scripts/build_metadata.py:146 | The eight hexadecimal digits of a length read back as the length |
| Envelope.FindFrom | scripts/build_metadata.py:154 | The search returns the first occurrence at or behind the position, or a negative number |
| Envelope.InspectBytes | scripts/build_metadata.py:149-181 | The decoding loop gives the specified value or error |
| Envelope.EnvelopeIsRead | scripts/build_metadata.py:142-178 | An envelope is read back as its value, whatever follows it |
| Envelope.OnlyEncodingsAreRead | scripts/build_metadata.py:149-178 | A value is read exactly if its encoding stands there |
| Envelope.MalformedIff | scripts/build_metadata.py:158-160 | A header is called malformed exactly if the content does not begin with eight and sixty-four hexadecimal digits, each followed by a colon, whatever the digits are |
| Envelope.AcceptedIffMadeOfEnvelopes | scripts/build_metadata.py:149-181 | An artifact has a value if and only if it is made of envelopes of that value and other bytes |
| Envelope.FoundBehindGap | scripts/build_metadata.py:154 | The marker is unbordered, so no occurrence straddles the end of a gap |
| Envelope.ArtifactsAreReadBack | scripts/build_metadata.py:142-181 | One or more envelopes of the same value among other bytes decode to that value; different values are refused |
| Envelope.EncodedValueIsReadBack | scripts/build_metadata.py:142-181 | A value is encoded exactly if its payload is not too long, and then decodes to itself |
| Envelope.CutArtifactsAreRefused | scripts/build_metadata.py:149-181 | A cut last envelope is refused unless only an incomplete opening prefix of it is left |
| UniversalArtifacts.UniversalMachoSlices | scripts/build_metadata.py:184-219 | The table is accepted exactly if it names two slices, one for each processor, in bounds, behind the table, aligned and disjoint |
| UniversalArtifacts.InspectArtifactBytes | scripts/build_metadata.py:222-231 | A universal artifact is accepted exactly if each of its two slices carries the value of the whole |
| UniversalArtifacts.TableIsFoundIffThere | scripts/build_metadata.py:184-199 | A table of two entries is found, with these entries, exactly where the bytes of such a table stand |
| UniversalArtifacts.LibraryIsRecognizedIff | scripts/build_metadata.py:212-218 | A slice is recognized exactly if it begins with the bytes of a library for the processor of its entry |
| UniversalArtifacts.SlicesAreApart | scripts/build_metadata.py:199-218 | Two slices are accepted exactly if they are for the two processors, lie behind the table and inside the content on their alignment, and share no byte |
| UniversalArtifacts.UniversalIsAcceptedIff | scripts/build_metadata.py:184-231 | A universal artifact is accepted exactly if it carries its value and begins with a table of two such libraries that carry it |

## Left out

- Diagnostics are sets of kinds and variables: no wording, no locations, no order.
- Null and recovery nodes of the parser do not occur; a missing expression is a literal.
- A match guard is a single expression and assignments are statements, as the parser guarantees (src/bs_parser.cpp:4573-4597 and 5483-5486).
- The output `r_assigned_anywhere` has no reader and is not modelled.
- The search for functions and lambdas with local finals (flow_finality 546-716) is left out; the analysis of one local scope is in.
- Reads inside lambdas, and in methods called from `_init`, are not checked by the source and are no faults here.
- CheckedBodiesRunWell, CheckedConstructionRunsWell and ConstructionIsExact: a run writes what its own assignments write. What a call in the middle of it writes, be it a method or `set` on the object, is a step of its own, and counts in the theorems about the life of an object.
- Whether the receiver of an access may be the object or may hold its value in place, which key an index has, and which members a call looks up by a string, is part of the tree.
- Methods of built-in values leave the slot of a final as it is; what `append` does to the storage behind an array or a packed array is no write.
- ImmutableIffCallablesAreClean, AcceptedFinalsAreImmutable, LifeIsExact and AcceptedLife: the calls are those of the bodies that the class declares or receives from traits; bodies of bases, of derived and other classes and of other scripts, and what the engine does on its own are left out.
- Each variable declaration is a node of its own (`DistinctNodes`); two declarations never share one.
- A class without tracked finals is not checked for construction, as in the source (flow_finality 269).
- Types of callables, traits and arguments are abstract: compatibility, conflict and fit are relations with the laws the source relies on; constants that are converted, `Self` contracts and generic substitution are not followed.
- The argument check of `bind` itself (the errors it reports) is reduced to whether a bound value conflicts at every arity; chains are stated for operations that report nothing.
- `callv` and the typing of the values of `call` are not modelled.
- ReportedStoreHappens and LocalFinalsStayInTheirFunction: for bodies without dead code, which the scan looks at although it never runs.
- OnePassIsExact: for loops in which nothing returns or halts; with a `return` inside the analysis may count a write that no run carries past the loop, as in `LoopCanBeRejectedNeedlessly`. That accepted suites go well (`AcceptedOnePassIsClean`) does not need this.
- SubstitutableIffArgumentsMatch, FittingImplementationsMatch and MatchIff: compatibility is a preorder; where dynamic checks are lax and a Variant may go anywhere it is none, and only `DeclaredVariantsStay` and `UntypedMayBecomeTyped` speak of that.
- MatchMeansSubstitutable: signatures have fewer than 2^31 - 1 parameters.
- ConformanceVisibility.Visibility.CanSee: nothing is said about a negative answer beyond the cap of 4096 visits, which the source accepts.
- The conformance registry is a parameter: the pairs and methods that other files registered. Publishing to it, and the raising of files to a parse status, are left out.
- The key of a membership is the pair of target and identity; the source joins them with a newline, which no name contains.
- Validation of a conformance against its trait, base constraints and redundancy are given as verdicts.
- Narrowing in match arms and lambda captures is not modelled: no lambda is compiled yet, so what a call could do to a captured local is open; the source only drops narrowings there.
- Types whose source is inferred compare equal to every type in the source; here types are compared by what they are.
- NarrowedTypes.MakeUnionOf: members are not sorted; the order only matters for comparing unions with each other.
- A `for` loop narrows like a `while` loop whose condition says nothing.
- BodiesWithoutStaleReadsAreTyped: one direction for conditions that are not opaque; a condition can keep the values out that a stale entry excludes, by relating variables to each other.
- NarrowingContext.FlowContext.AnalyzeStatement: match arms and lambda captures are missing, as said above.
- The order of idle projects in their queue, timeouts and the evaluation of a process's output do not matter to the stop protocol; a process that times out is killed without a record, and is a process that ends.
- The fast path's own stop handler, which publishes nothing after a stop, is left out.
- Texts of changes are their encoded bytes; types of the fields of a change and the `target` field are not modelled.
- Publication: targets are different paths outside each other; removal of a published target does not fail, and no second fault happens during rollback.
- JSON decoding is a function from lines to documents; the values of a plan that are no integers make a document of another shape.
- Metadata validation, canonical JSON and the checksum are functions with two laws: a canonical payload parses back, and a checksum is 64 hexadecimal digits. Bytes are characters.
- Also out: generics, coroutine wrapping, annotations, signals, the parse cache, byte code generation, command lines, Git and process launching.
