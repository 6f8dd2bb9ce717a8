# Backtrackable state, the justification heuristic and ACI proof checking: a verified model

The solver keeps almost all of its search state in *contexts*: a push opens a scope, every
object saves itself lazily at its first change in that scope, and a pop walks linked lists
that put the saved versions back. On top of contexts sit containers (lists, queues, maps)
and the *justification* decision heuristic, which walks the asserted formulas with an
explicit, backtracked stack and tells the SAT solver what to decide on or that it may stop.
Beside them are the checker behind the proof rules ACI_NORM and ABSORB, the region
allocator that saved versions live in, and the two-level table under node attributes. This
project models these parts and proves what they promise.

**Justification strategy.** `Formulas`, `Connectives`, `Miniscope`, `JustifyFrames`, `JustifyParts`,
`JustifyStep`, `JustifyWalk`, `Strategy`, `Progress`. Formulas are evaluated in three values under the
partial assignment; a known value is the truth value under every completion. What a step of the
traversal must do is said by meaning: `Connectives.Combine` is what known arguments settle,
whatever the others are, a formula is settled exactly when the lookahead or the arguments worked
on settle it, and the value requested of an argument is the best one for its parent. The classes
have the fields of the source. `Strategy.Run` plays any sequence of assignments, pushes, pops,
added assertions and questions, and shows that every answer is right for the
assignment and assertions at that point, which are computed from the events alone
(`AfterAll`). That the solver does not ask while an assertion is false is not assumed: a
stop means that every assertion is decided, and that all are satisfied exactly when none is
false. `Progress.Finish` shows that the stop comes: a solver that assigns every literal it is
given is asked to decide atoms that were open, each once, and is then told to stop.

**Contexts.** `EagerContext` is the simple meaning, copying everything on push. `ScopeChains`
has the doubly linked scope lists, whose back pointers are either the head of a scope or the
next field of a cell. While a scope is being popped the back pointer of its first cell is
stale, which `stale` tracks. `ObjectVersions` has the saved versions and what they stand for,
and `ContextEngine` the context with its refinement proof. `ContextRuns` plays whole runs:
the values at the end of any run are those of the eager context. The strategy's own push and
pop copy its state, which is what the engine is shown to amount to.

**Containers.** `LazySaves` is one object's view of that engine: memos saved at the first
change in a scope. `VersionChains` derives this view: the versions an object of a context
restores from are such a chain, update() and restore() extend and shorten it as `LazySaves`
says, and its memo at a scope is the object's value there. `ContextList` (CDList, over
`Vectors`), `ContextQueue` (CDQueue), `ContextInsertMap` (CDInsertHashMap) and
`ContextHashMap` (CDHashMap) build on it; each records the abstract value at every open push
and shows that a pop gives exactly that value back.

**ACI.** `AciTables`, `AciNormal`, `AciExact`, `AciChecker`: nodes are a datatype compared as
values, as nodes are shared in the source, and are ordered by an injective id. Meanings are any
interpretation that satisfies the laws declared for the kind; the standard interpretations of
the Boolean, string, regular expression and bit-vector kinds are shown to satisfy them.
`AciMeaning` evaluates terms by those operations, with any values for all other terms, and
concludes that both rules are sound for well-typed terms. The tables are shown to leave out no
kind whose operation has the law, and `AciFree` shows that the checker is complete: terms of one
kind and type that it rejects differ in an interpretation with the declared laws.

**Memory and attributes.** `ContextMemory` is the chunked region allocator, `ManagedContext`
a context whose saved versions are allocated from it,
`AttributeTable` the two-level attribute table with its composite iterator.

Where code and documentation differ, the model follows the code:

- `refreshCurrentAssertion` says that main assertions are used first; the code asks the local
  list first (src/decision/justification_strategy.cpp:530-537), and so does the model.
- `isDone` is documented to be true if and only if all relevant assertions are satisfied. It
  is true exactly when no assertion is on the stack and every assertion not taken yet is already
  justified (`IsDone`). Then all are satisfied unless one is false. The other direction fails for
  every assertion that no traversal has given a value yet, whatever the assignment: when it is
  satisfied before the first call (`IsDoneUnasked`), and when it is still on the stack after the
  decision that satisfies it (`IsDoneTooLate`).
- The absorb attribute is stored per node and not per zero: with two different zeros
  the second question gets the answer to the first (`AnotherZero`). The answers are exact
  for callers that always pass the one zero element of the kind and type, as the proof
  checker does (src/theory/builtin/proof_checker.cpp:317-331).

## Model

| member | source | states |
|---|---|---|
| Formulas.KleeneSound | src/decision/justify_cache.cpp:30-63 | a known three-valued value is the truth value under every completion of the assignment |
| Formulas.KleeneMonotone | src/decision/justify_cache.cpp:30-63 | assigning more atoms never changes a known value, so cache entries stay right within a level |
| JustifyParts.JustifyCache.LookupValue | src/decision/justify_cache.cpp:30-63 | the value returned is the cached one with the right polarity; only atoms are entered, nothing is overwritten, and every entry remains the value under all completions; unknown for a literal means the atom is unassigned |
| JustifyParts.JustifyCache.SetValue | src/decision/justify_cache.cpp:70-73 | needs a formula without an entry and its true value; adds exactly that entry and keeps the cache sound |
| JustifyParts.JustifyStack.Reset | src/decision/justify_stack.cpp:24-28 | one frame for the assertion, wanted true, at child 0, whatever allocated frames lie beyond |
| JustifyParts.JustifyStack.Clear | src/decision/justify_stack.cpp:30-34 | no current assertion and no valid frame |
| JustifyParts.JustifyStack.PushToStack | src/decision/justify_stack.cpp:53-67 | exactly one frame is added on top of the valid ones |
| JustifyParts.JustifyStack.PopStack | src/decision/justify_stack.cpp:69-73 | exactly the top frame is dropped |
| JustifyParts.JustifyStack.GetOrAllocJustifyInfo | src/decision/justify_stack.cpp:75-84 | the frame exists afterwards and no frame that was allocated changes |
| JustifyParts.JustifyStack.NextChildIndex | src/decision/justify_info.cpp:30-34 | returns the child index of the top frame and advances it by one, touching nothing else |
| JustifyParts.AssertionList.GetNextAssertion | src/decision/assertion_list.cpp:56-82 | takes the assertions in order, each once, and answers none exactly at the end |
| JustifyStep.StepAndOr | src/decision/justification_strategy.cpp:249-287 | the AND/OR case: a formula is settled exactly when one known argument forces the wanted value before the first request, or the arguments worked on settle it, and then with its value under all completions; otherwise the next argument is requested with the value that is best for the formula; settled after a request, the formula has the wanted value iff the last child has the requested one |
| JustifyStep.StepImplies | src/decision/justification_strategy.cpp:288-320 | the same for implications, with the lookahead at the consequent |
| JustifyStep.StepIte | src/decision/justification_strategy.cpp:321-362 | the same for if-then-else, with the lookahead at equal branches; the condition is asked for the branch that is not wrong or already right, and a false condition moves the child index past the then branch |
| JustifyStep.StepXorIff | src/decision/justification_strategy.cpp:363-413 | the same for XOR and Boolean equality: with the other side known the request settles the formula as wanted, with neither known it is true |
| JustifyStep.Step | src/decision/justification_strategy.cpp:242-418 | the whole case split keeps the cache sound and moves no other frame |
| JustifyStep.StepSettles | src/decision/justification_strategy.cpp:419-435 | a settled node gets its one cache entry, and ends at its desired value iff the last child requested ended at the value requested of it, in both polarities |
| JustifyStep.StepMoves | src/decision/justification_strategy.cpp:436-442 | a node not settled requests an existing later child with a definite value |
| JustifyStep.AptIsRight | src/decision/justification_strategy.cpp:242-418 | if some value of the requested child settles the formula as wanted, every completion in which the child has the requested value does |
| JustifyStep.AptIsNotWrong | src/decision/justification_strategy.cpp:242-418 | the requested value settles the formula wrongly only if both do, and is true if neither settles it |
| Connectives.CombineExact | src/decision/justification_strategy.cpp:242-418 | known arguments settle a connective iff all truth values that agree with them give the same result |
| Connectives.AheadIsRight | src/decision/justification_strategy.cpp:249-272 | the lookahead finds the wanted value whenever the arguments after the first settle it, and nothing else |
| Connectives.HoldsByOp | src/decision/justification_strategy.cpp:249-418 | a formula holds iff its connective does of the truth values of its arguments |
| JustifyFrames.LookedStable | src/decision/justify_cache.cpp:30-63 | entering the values of assigned atoms changes no later lookup |
| JustifyFrames.KnownSettles | src/decision/justify_cache.cpp:30-63 | what some known arguments settle is the value under all completions |
| JustifyFrames.ChildIsLighter | src/decision/justification_strategy.cpp:97-208 | frames get strictly lighter, so the stack is a chain of strict subformulas |
| JustifyFrames.RequestCosts | src/decision/justification_strategy.cpp:97-208 | requesting a child uses up more of the termination measure than pushing it adds |
| JustifyFrames.DecidedThenSatisfied | src/decision/justification_strategy.cpp:121-122 | decided assertions are all satisfied under every completion iff none of them is false |
| JustifyWalk.AfterSettle | src/decision/justification_strategy.cpp:110-117 | popping a settled frame hands its value to the parent, keeps the chain of uncached frames and lowers the measure |
| JustifyWalk.AfterKnownChild | src/decision/justification_strategy.cpp:200-206 | a requested child that already has a value continues its parent |
| JustifyWalk.AfterPush | src/decision/justification_strategy.cpp:187-198 | pushing an unknown child keeps the chain of strict, uncached subformulas, each the last child its parent requested |
| JustifyWalk.AfterDecision | src/decision/justification_strategy.cpp:157-186 | stopping at an unassigned literal leaves a stack that can be resumed, the decision being the child the top frame requested last and having the requested value |
| JustifyWalk.ExhaustedIsDecided | src/decision/justification_strategy.cpp:540-579 | a list worked off without a current assertion has a known value for each assertion |
| Miniscope.ConjunctsMeaning | src/decision/justification_strategy.cpp:477-492 | splitting conjunctions and negated disjunctions keeps the meaning, in both polarities |
| Miniscope.MiniscopeMeaning | src/decision/justification_strategy.cpp:459-509 | the given assertions hold iff the formulas the list gains and the skipped literals hold |
| Miniscope.MiniscopeIrreducible | src/decision/justification_strategy.cpp:459-509 | nothing the list gains is a literal, a conjunction or a negated disjunction |
| Miniscope.GainedInOrder | src/decision/justification_strategy.cpp:470-504 | the parts of a conjunction or negated disjunction are gained in their order and in its place, one assertion after the other |
| Strategy.InsertToAssertionList | src/decision/justification_strategy.cpp:459-509 | the work-list loop terminates and appends exactly the miniscoped assertions, in order |
| Strategy.NextUnjustified | src/decision/justification_strategy.cpp:546-578 | skips exactly the assertions that have a value and returns the first that has none |
| Strategy.JustificationStrategy.GetNextJustifyNode | src/decision/justification_strategy.cpp:215-443 | settles the top formula with its value or moves it to a later child; other frames and entries stay |
| Strategy.JustificationStrategy.RefreshCurrentAssertionFromList | src/decision/justification_strategy.cpp:540-579 | finds an assertion iff one that is left has no value, takes the first such one and starts it afresh |
| Strategy.JustificationStrategy.RefreshCurrentAssertion | src/decision/justification_strategy.cpp:511-538 | keeps a current assertion untouched; otherwise takes the first open local assertion, leaving the main index, or if there is none the first open main one; fails iff nothing is open |
| Strategy.JustificationStrategy.JustifyTop | src/decision/justification_strategy.cpp:101-117 | one round of the inner loop keeps the chain of frames and lowers the measure |
| Strategy.JustificationStrategy.FindNext | src/decision/justification_strategy.cpp:101-117 | the inner loop terminates with a request or an empty stack |
| Strategy.JustificationStrategy.Resume | src/decision/justification_strategy.cpp:71-96 | a call resumes from any stack left by earlier calls and pops with the value of the last decision, and starts the assertion over exactly when that decision has lost its value |
| Strategy.JustificationStrategy.Advance | src/decision/justification_strategy.cpp:146-207 | a requested child with a value is used, a literal without one is decided on with the requested value, and any other child is pushed with it; the result can be resumed |
| Strategy.JustificationStrategy.Round | src/decision/justification_strategy.cpp:97-208 | each round either decides or lowers (assertions left, stack work) |
| Strategy.JustificationStrategy.Search | src/decision/justification_strategy.cpp:97-213 | the outer loop terminates; without a decision every assertion has been worked off |
| Strategy.JustificationStrategy.StopIsJustified | src/decision/justification_strategy.cpp:57-66 | at a stop all assertions of both lists are decided, hence satisfied iff none is false |
| Strategy.JustificationStrategy.GetNextInternal | src/decision/justification_strategy.cpp:57-213 | from every boundary state: a stop means all assertions decided, otherwise the literal is an unassigned atom of the current assertion with the requested value, its formula not being settled by anything known and no other value being better; assertions were taken local before main and in order; the boundary invariant is kept |
| Strategy.JustificationStrategy.IsDone | src/decision/justification_strategy.cpp:445-445 | true iff no assertion is current and none left is unjustified; then everything is decided |
| Strategy.JustificationStrategy.Presolve | src/decision/justification_strategy.cpp:45-55 | both lists start over with nothing on the stack |
| Strategy.JustificationStrategy.AddAssertions | src/decision/justification_strategy.cpp:447-451 | main assertions grow without disturbing the current state or any saved level |
| Strategy.JustificationStrategy.AddLocalAssertions | src/decision/justification_strategy.cpp:453-457 | local assertions grow, the boundary invariant is kept |
| Strategy.JustificationStrategy.Assign | src/decision/justification_strategy.cpp:75-95 | an assignment between calls keeps every cache entry and the resumable stack valid |
| Strategy.JustificationStrategy.Pop | src/decision/justification_strategy.cpp:75-95 | after any number of pops the strategy is in the state of the matching push and still at a valid boundary |
| Strategy.Happen | src/decision/justification_strategy.h:125-142 | one event changes the world as it should and is answered rightly |
| Strategy.Run | src/decision/justification_strategy.h:125-142 | in every run each question is answered; at each stop all assertions are satisfied under every completion, unless one is false; a call stops once all atoms are assigned, and one that does not stop decides, unless only stops are wanted; each decision is an unassigned atom of an assertion |
| Strategy.WorldOfEvent | src/decision/justification_strategy.h:125-142 | what each event does to the assignment, the assertions and the open levels |
| Strategy.PopUndoesEvents | src/decision/justification_strategy.cpp:75-95 | whatever happens between a push and its pop, the assignment and the local assertions come back and the main assertions have only grown |
| Strategy.IsDoneTooLate | src/decision/justification_strategy.h:136-142 | a run after which all assertions are satisfied and isDone is false, with the assertion left on the stack |
| Strategy.IsDoneUnasked | src/decision/justification_strategy.h:136-142 | the same without any call before: a satisfied assertion that has no value in the cache |
| Progress.DecisionIsOpen | src/decision/justification_strategy.cpp:157-186 | a decision is on an atom of the assertions that has no value yet |
| Progress.Finish | src/decision/justification_strategy.cpp:57-213 | deciding every literal asked for, with any values, each at a new level, reaches a stop with all assertions decided; the atoms decided were open, each is asked for once, and nothing else is assigned |
| Progress.AtomOccurs | src/decision/justification_strategy.cpp:157-186 | the atoms counted as open occur in the assertions |
| EagerContext.CopiesStay | src/context/context.cpp:64-114 | no run above a scope changes the copies of that scope |
| EagerContext.PopUndoesRun | src/context/context.cpp:64-114 | whatever runs between a push and its pop, a surviving object gets back its value |
| EagerContext.SetReadsBack | src/context/cdo.h:96-100 | after any run, a set gives the object that value in the current scope; every copy and every other object is as before |
| EagerContext.SetOfUnknown | src/context/cdo.h:96-100 | a set of an object that does not exist changes nothing |
| EagerContext.NewReadsBack | src/context/cdo.h:76-86 | after any run, a new object has its default now and in every open scope; every other object is as before |
| EagerContext.DestroyReadsBack | src/context/context.cpp:217-250 | a destroyed object is in no scope; every other object is as before |
| EagerContext.PushPopReadBack | src/context/context.cpp:64-114 | a push changes no value, and a pop right after it undoes it |
| ScopeChains.AddKeepsChains | src/context/context.h:720-730 | adding in front keeps every list well linked |
| ScopeChains.SubstituteKeepsChains | src/context/context.cpp:140-169 | putting a saved copy in an object's place keeps every list well linked |
| ScopeChains.UnlinkKeepsChains | src/context/context.cpp:217-250 | taking a cell out keeps every list well linked, also while a scope is being popped |
| ScopeChains.MoveBackKeepsChains | src/context/context.cpp:171-215 | the restored object takes the place of its saved copy; only the back pointer of the next cell in the popped list becomes stale |
| ScopeChains.EmptyChain | src/context/context.cpp:335-349 | a scope whose head is null has no cell: the walk has reached them all |
| ScopeChains.Chains.AddToChain | src/context/context.h:720-730 | exactly one cell joins the list of the scope |
| ScopeChains.Chains.LeaveCopy | src/context/context.cpp:140-169 | the copy takes the object's place and the object joins the top scope |
| ScopeChains.Chains.MoveTo | src/context/context.cpp:171-250 | the object takes its copy's place in an older list, from any position |
| ScopeChains.Chains.MoveHeadBack | src/context/context.cpp:171-215 | the head of the popped list takes its copy's place, and no stale back pointer is written through |
| ScopeChains.Chains.Unlink | src/context/context.cpp:217-250 | exactly that cell leaves its list |
| ObjectVersions.SavedIsOlder | src/context/context.cpp:140-169 | a saved version belongs to an older scope than the version restoring from it |
| ObjectVersions.SaveRepresents | src/context/context.cpp:140-169 | saving changes no value of any scope |
| ObjectVersions.AssignRepresents | src/context/cdo.h:96-100 | a change in the current scope is not seen by older scopes |
| ObjectVersions.RestoreRepresents | src/context/context.cpp:171-215 | restoring one object leaves the values of all older scopes as they were |
| ContextEngine.Context.Push | src/context/context.cpp:64-74 | opening a scope amounts to copying all objects |
| ContextEngine.Context.NewObject | src/context/context.cpp:252-264 | a new object has its default value now and in every enclosing scope, and nothing else changes |
| ContextEngine.Context.Update | src/context/context.cpp:140-169 | saving on first change changes no value |
| ContextEngine.Context.Get | src/context/cdo.h:105-105 | the current value of the eager context |
| ContextEngine.Context.Set | src/context/cdo.h:96-100 | the object has the value, every other object and every copy is as before |
| ContextEngine.Context.Destroy | src/context/context.cpp:217-250 | the object and all its versions leave every list, and nothing else changes |
| ContextEngine.Context.DestroyAll | src/context/context.cpp:217-250 | the same for several objects destroyed while another is being restored |
| ContextEngine.Context.RestoreAndContinue | src/context/context.cpp:171-215 | the object goes back one version, its victims are gone, the walk goes on at the right cell |
| ContextEngine.Context.PopOne | src/context/context.cpp:335-349 | exactly the restored object and its victims leave the list being walked |
| ContextEngine.Context.Pop | src/context/context.cpp:76-114 | popping amounts to putting all copies back; each surviving object of the scope is restored exactly once, each destroyed one is in no list |
| ContextEngine.Context.PopTo | src/context/context.cpp:116-120 | pops back to exactly the copies of that level, without the objects destroyed on the way, which are in no list |
| ContextEngine.Context.ObjectIsLazilySaved | src/context/context.cpp:140-215 | the versions of an object form a chain of memos whose memo at every open push is the copy of that push |
| ContextEngine.Context.NoReleasedCellListed | src/context/context.cpp:76-114 | every saved version in a list was saved at a level that is still open |
| ContextRuns.Perform | src/context/context.cpp:64-264 | each operation of the engine follows the eager one, object by object, also when a name is reused or unknown |
| ContextRuns.Play | src/context/context.cpp:64-264 | after every run of pushes, pops, creations, changes and destructions all values are those of the eager context |
| ManagedContext.ManagedContext.Set | src/context/context.cpp:140-169 | a first change in a scope allocates its copy in the current region; fails iff the copy exceeds a chunk |
| ManagedContext.ManagedContext.Pop | src/context/context.cpp:76-114 | versions are restored before their region is released, and what is still saved lies in regions that stay |
| ManagedContext.ManagedContext.SavedVersionsAreLive | src/context/context.cpp:76-114 | no list has a version in released memory, and no two saved versions share a byte |
| VersionChains.ValueIsMemo | src/context/context.cpp:140-215 | the value of an object at any scope is the memo current there |
| VersionChains.SaveExtendsChain | src/context/context.cpp:140-169 | update() adds the current memo to the object's chain and changes no other chain |
| VersionChains.RestoreDropsMemo | src/context/context.cpp:171-215 | restore() goes back to the newest memo of the object's chain and changes no other chain |
| LazySaves.SaveKeepsMemos | src/context/context.cpp:140-169 | a save at the first change in a scope keeps the memo of every older scope |
| LazySaves.RestoreKeepsMemos | src/context/context.cpp:171-215 | a restore keeps the memo of every older scope |
| ContextList.CDList.MakeCurrent | src/context/cdlist.h:170-183 | saving the size changes no list |
| ContextList.CDList.PushBack | src/context/cdlist.h:116-124 | appends one element, cleans none and leaves every recorded list |
| ContextList.RecordedRestore | src/context/cdlist.h:190-193 | cutting back to the saved size loses no element an older version needs |
| ContextList.CDList.ContextPop | src/context/cdlist.h:190-223 | the list is exactly the one of the matching push; what was appended since is cleaned once, newest first |
| Vectors.Vector.TruncateList | src/context/cdlist.h:204-223 | exactly the earlier list; dropped elements cleaned once each, newest first |
| Vectors.ReversedAt | src/context/cdlist.h:207-214 | the order of the clean-up is that of the list, backwards |
| ContextQueue.RecordedKept | src/context/cdqueue.h:60-72 | a list that keeps the elements up to the last saved size keeps every recorded queue |
| ContextQueue.RecordedRestore | src/context/cdqueue.h:74-81 | cutting back to the saved size loses no element an older version needs |
| ContextQueue.CDQueue.MakeCurrent | src/context/cdqueue.h:60-72 | saving changes no queue |
| ContextQueue.CDQueue.Push | src/context/cdqueue.h:104-104 | enqueues at the back and leaves every recorded queue |
| ContextQueue.CDQueue.Pop | src/context/cdqueue.h:111-124 | dequeues the front and leaves every recorded queue; once empty, everything no saved version needs is discarded |
| ContextQueue.CDQueue.Front | src/context/cdqueue.h:127-133 | the first waiting element |
| ContextQueue.CDQueue.Back | src/context/cdqueue.h:136-142 | the last waiting element |
| ContextQueue.CDQueue.Empty | src/context/cdqueue.h:93-97 | true iff no element is waiting |
| ContextQueue.CDQueue.Size | src/context/cdqueue.h:101-101 | the number of waiting elements |
| ContextQueue.CDQueue.ContextPop | src/context/cdqueue.h:74-81 | the queue is exactly the one of the matching push |
| ContextInsertMap.DropLastKey | src/context/cdinsert_hashmap.h:159-169 | dropping the newest key leaves exactly the other entries |
| ContextInsertMap.InsertHashMap.PopToSize | src/context/cdinsert_hashmap.h:172-178 | key stack and table keep holding the same distinct keys; the entries are those of the first s keys |
| ContextInsertMap.CDInsertHashMap.Insert | src/context/cdinsert_hashmap.h:280-287 | adds one entry and leaves every recorded map |
| ContextInsertMap.CDInsertHashMap.InsertSafe | src/context/cdinsert_hashmap.h:293-304 | inserts iff the key is new |
| ContextInsertMap.CDInsertHashMap.Restore | src/context/cdinsert_hashmap.h:226-236 | popping to the saved size keeps every recorded map of the older scopes |
| ContextInsertMap.CDInsertHashMap.ContextPop | src/context/cdinsert_hashmap.h:226-236 | the map is exactly the one of the matching push |
| ContextHashMap.RingAppend | src/context/cdhashmap.h:205-216 | linking in before the first element puts the new one last in the circular list |
| ContextHashMap.RingRemove | src/context/cdhashmap.h:147-160 | unlinking takes exactly one element out of the circular list, also the first or only one |
| ContextHashMap.RemovedIsNew | src/context/cdhashmap.h:133-164 | an element whose saved version is outside the map was in no older scope |
| ContextHashMap.SetKeeps | src/context/cdhashmap.h:221-225 | a new value for a key changes no recorded map |
| ContextHashMap.AddKeeps | src/context/cdhashmap.h:190-217 | a new key changes no recorded map; table and list keep the same elements |
| ContextHashMap.RestoreKeeps | src/context/cdhashmap.h:165-168 | restoring a value changes no recorded map |
| ContextHashMap.RemoveKeeps | src/context/cdhashmap.h:138-164 | removing a key of the popped scope changes no recorded map; table and list keep the same elements |
| ContextHashMap.CDHashMap.Find | src/context/cdhashmap.h:388-400 | finds a key iff an entry has it, with its value |
| ContextHashMap.CDHashMap.Insert | src/context/cdhashmap.h:330-342 | a new key goes last; an old one keeps its place and gets the value |
| ContextHashMap.CDHashMap.ElementFor | src/context/cdhashmap.h:320-328 | the entry of the key, made last with the default value when missing |
| ContextHashMap.CDHashMap.Iterate | src/context/cdhashmap.h:241-251 | the iterator passes every entry once, in insertion order |
| ContextHashMap.CDHashMap.RestoreScope | src/context/context.cpp:335-349 | collects exactly the elements that leave the map, each once, while walking the scope |
| ContextHashMap.CDHashMap.ContextPop | src/context/cdhashmap.h:133-174 | keys, values and insertion order are those of the matching push; exactly the elements that left are deleted, once each, after the walk |
| AciTables.DeclaredLawsHold | src/expr/aci_norm.cpp:29-133 | every kind declared associative, commutative or idempotent is so, and its null terminator is its identity |
| AciTables.DeclaredZeroAbsorbs | src/expr/aci_norm.cpp:222-294 | the zero element of every absorbing kind absorbs |
| AciTables.LawsAreDeclared | src/expr/aci_norm.cpp:29-133 | every kind with an operation has a null terminator and is declared with exactly the laws its operation has; no other kind is declared |
| AciTables.AbsorbingKindsAreDeclared | src/expr/aci_norm.cpp:222-294 | isAbsorb handles exactly the kinds whose operation has an absorbing element, and the table has it for each type |
| AciTables.ArithmeticEntries | src/expr/aci_norm.cpp:29-278 | sums have the identity zero, products the identity one and the absorbing element zero, also for bit-vectors |
| AciMeaning.StandardInterprets | src/expr/aci_norm.cpp:29-133 | evaluation by the standard operations interprets every normalised kind with the declared laws |
| AciMeaning.EvalTyped | src/expr/aci_norm.cpp:153-160 | a well-typed term has a value of its type |
| AciMeaning.NormIsSound | src/expr/aci_norm.cpp:200-220 | well-typed terms that isACINorm accepts are equal, whatever the other terms stand for |
| AciMeaning.AbsorbIsSound | src/expr/aci_norm.cpp:296-348 | a well-typed term with the zero of its kind and type beneath nested applications equals the zero |
| AciNormal.FlattenKeepsValue | src/expr/aci_norm.cpp:161-186 | flattening nested applications and dropping identities keeps the value |
| AciNormal.NormalFormKeepsValue | src/expr/aci_norm.cpp:135-198 | the normal form has the value of the term, for every lawful interpretation |
| AciExact.SortDecides | src/expr/aci_norm.cpp:187-191 | sorted argument lists are equal iff the arguments are equal as multisets |
| AciExact.DedupDecides | src/expr/aci_norm.cpp:179-185 | duplicate-free lists are equal as multisets iff the arguments are equal as sets |
| AciExact.SameNormalForm | src/expr/aci_norm.cpp:135-198 | terms of one kind have the same normal form iff their flattened, identity-free arguments agree as sequences, multisets or sets |
| AciExact.NormalFormOfOtherKind | src/expr/aci_norm.cpp:192-198 | the normal form is a given term of another kind iff the flattened arguments come down to that term, or to none and that term is the identity |
| AciChecker.AcceptedIsEqual | src/expr/aci_norm.cpp:200-220 | accepted terms have equal values, also across kinds |
| AciChecker.AcceptedExactly | src/expr/aci_norm.cpp:200-220 | terms of one kind and type are accepted iff their arguments agree |
| AciChecker.AcceptedAcross | src/expr/aci_norm.cpp:210-219 | terms of different kinds are accepted iff the arguments of one come down to the other |
| AciMeaning.AcceptedByMeaning | src/expr/aci_norm.cpp:200-220 | terms of one kind and type are accepted iff their arguments are equal as sets, multisets or sequences, by the laws their operation has |
| AciMeaning.NormalisedTerms | src/expr/aci_norm.cpp:144-160 | the terms normalised are those whose kind has an operation, with its unit as the identity |
| AciFree.AcceptedByLaws | src/expr/aci_norm.cpp:200-220 | terms of one kind and type are accepted iff they are equal in the freest interpretation of the declared laws |
| AciChecker.Checker.GetACINormalForm | src/expr/aci_norm.cpp:135-198 | the work-stack loop computes the normal form, and the attribute cache never changes an answer |
| AciChecker.Checker.IsACINorm | src/expr/aci_norm.cpp:200-220 | the answer does not depend on what is cached: equal normal forms for equal kinds, and for different kinds exactly when the arguments of one term come down to the other |
| AciChecker.AbsorbedIsZero | src/expr/aci_norm.cpp:296-348 | a term with the zero beneath nested applications of its operator has the value of the zero |
| AciChecker.AbsorbsIsMembership | src/expr/aci_norm.cpp:332-343 | a term absorbs iff the zero is among its flattened arguments |
| AciChecker.ChildrenAreNew | src/expr/aci_norm.cpp:320-327 | the search never meets a node that is visited and unfinished, even on shared terms |
| AciChecker.SettleAbsorb | src/expr/aci_norm.cpp:331-345 | when a node is settled the attributes of its children decide it |
| AciChecker.Checker.IsAbsorb | src/expr/aci_norm.cpp:296-348 | the iterative search terminates; for every kind whose operation has an absorbing element it returns true iff the zero occurs beneath nested applications, with results kept across calls, and for every other kind it returns false |
| AciChecker.AnotherZero | src/expr/aci_norm.cpp:344-345 | two questions about one term with different zeros, where the second answer is the attribute stored by the first and wrong |
| ContextMemory.ActiveDiffer | src/context/context_mm.cpp:32-61 | active chunks are different chunks |
| ContextMemory.BlocksDisjoint | src/context/context_mm.cpp:100-121 | live blocks are pairwise disjoint by position |
| ContextMemory.ContextMemoryManager.LiveBlocksDisjoint | src/context/context_mm.cpp:100-121 | every live block lies in one active chunk, and no two share a byte of any chunk |
| ContextMemory.PopRegions | src/context/context_mm.cpp:135-171 | older regions use only chunks and blocks that stay |
| ContextMemory.ContextMemoryManager.NewChunk | src/context/context_mm.cpp:32-61 | takes the newest free chunk or a new one; every chunk stays in exactly one of active, free and released |
| ContextMemory.ContextMemoryManager.NewData | src/context/context_mm.cpp:100-121 | a request that fits starts at the bump pointer and opens no chunk, otherwise at the start of a new chunk; the block is disjoint from all live ones; fails iff the request exceeds a chunk |
| ContextMemory.ContextMemoryManager.Push | src/context/context_mm.cpp:123-133 | opens a region without touching a block |
| ContextMemory.ContextMemoryManager.FreeNewChunks | src/context/context_mm.cpp:153-163 | exactly the chunks of the region become free, newest first |
| ContextMemory.ContextMemoryManager.DeleteExcessChunks | src/context/context_mm.cpp:165-170 | the newest 100 free chunks stay and exactly the older ones are released |
| ContextMemory.ContextMemoryManager.Pop | src/context/context_mm.cpp:135-171 | releases exactly the blocks since the matching push; at most 100 chunks stay free |
| AttributeTable.RemoveSlotAt | src/expr/attribute_internals.h:435-441 | erasing takes out one entry and leaves the iterator at the next |
| AttributeTable.RemoveEmptyBucket | src/expr/attribute_internals.h:443-447 | deleting an emptied bucket keeps the entries before and after the iterator |
| AttributeTable.AllEmplacedHas | src/expr/attribute_internals.h:452-499 | range insertion keeps old entries and adds one of the given entries for each new key |
| AttributeTable.RebuildAgrees | src/expr/attribute.h:528-538 | all entries of a table put into an empty one, in any order, give the same flat map |
| AttributeTable.SortedInOrder | src/expr/attribute_internals.h:460-466 | the entries are sorted by node, then by id |
| AttributeTable.LowerBound | src/expr/attribute_internals.h:242-257 | the position where an id belongs in a sorted vector |
| AttributeTable.BinarySearch | src/expr/attribute.h:511-511 | decides membership in a sorted list of ids |
| AttributeTable.AttrHash.Find | src/expr/attribute_internals.h:510-530 | the value of the flat map |
| AttributeTable.AttrHash.Set | src/expr/attribute.h:455-467 | updates one key of the flat map; vectors stay sorted without duplicates |
| AttributeTable.AttrHash.EraseBy | src/expr/attribute_internals.h:532-532 | drops exactly the keys of one node |
| AttributeTable.AttrHash.Size | src/expr/attribute_internals.h:415-424 | the number of entries |
| AttributeTable.AttrHash.Legalize | src/expr/attribute_internals.h:377-390 | moves to the next real entry, passing none |
| AttributeTable.AttrHash.Next | src/expr/attribute_internals.h:363-368 | passes exactly the current entry |
| AttributeTable.AttrHash.Erase | src/expr/attribute_internals.h:435-450 | removes exactly the current entry, no bucket is left empty, the iterator is at the entry that followed |
| AttributeTable.AttrHash.EraseIds | src/expr/attribute.h:497-520 | visits every entry once and leaves exactly those whose id is not listed, in order |
| AttributeTable.AttrHash.DeleteAttributes | src/expr/attribute.h:492-526 | the flat map without the listed ids, whether or not the table is rebuilt |
| AttributeTable.AttrHash.InsertAll | src/expr/attribute_internals.h:452-499 | enters the sorted entries run by run, the first entry of a key winning |
| AttributeTable.AttrHash.Reconstruct | src/expr/attribute.h:528-538 | rebuilding changes no lookup |

## Left out

- Dynamic assertion ordering and notifyStatus: both assertion lists are built with it off, so it never affects a run.
- Statistics, tracing, timers and resource spending: they do not affect any answer.
- The SAT solver and the CNF stream: a partial assignment of atoms stands for them; literals and atoms are in bijection.
- User-context pops: the main assertion list only grows within one check.
- Formulas with double negation, and AND or OR without arguments: the strategy assumes they do not occur, and assertions are required to be well formed in this sense.
- ContextNotifyObj callbacks: they run code that is not part of this model.
- ContextEngine.Context.Pop: each restore of the walk destroys a given list of objects, each object at most once; that a destroyed object's own restores destroy further objects is not modelled, because none of the modelled containers owns objects that do.
- ContextEngine.Context.PopTo: the same holds for every pop on the way.
- ContextMemory.BlocksDisjoint: speaks of positions in the active list; ContextMemory.ContextMemoryManager.LiveBlocksDisjoint speaks of chunks.
- ContextEngine.Context.NoReleasedCellListed: regions are numbers here; ManagedContext ties them to the allocator. The block of the Scope object itself is not modelled.
- JustifyInfo frames are values inside the stack and not separately allocated context objects: that truncating a list of context objects during a pop is safe is shown in ContextEngine.
- LazySaves.SaveKeepsMemos: stated on one object's chain of memos; VersionChains ties the chain to the versions of the engine.
- LazySaves.RestoreKeepsMemos: the same.
- The containers run on that view and not on the cells of ContextEngine, so the order in which different containers are restored is not captured there.
- CDHashMap::clear, destructors of whole containers, makeSaveRestorePoint, the reference-counted key handling: not context-dependent behaviour.
- CDHashSet, CDMaybe, CDTrailQueue: thin compositions that would add only easy members.
- Kinds with a table entry that the ACI rules never normalise (ADD, MULT, NONLINEAR_MULT, BITVECTOR_ADD, BITVECTOR_MULT): the entries are the identities and zeros of their operations, associativity and commutativity are not needed.
- Type checking of nodes: the type of a node is a parameter of the ACI members; AciMeaning requires terms to be well typed by the rules of the normalised kinds.
- AttributeTable.AttrHash.BucketFor: a new bucket goes to an unspecified place of the iteration order; a rehash that reorders old buckets is not modelled, and no property depends on the order.
- The Boolean attribute table, which packs bits into words, and the dispatch over table kinds in deleteAttributes: no new law.
- Memory exhaustion, alignment beyond chunk offsets and the debug variant of the allocator.
