# LoopPrimary: the loop-aware frontier pass, modelled in Dafny

This project models `lib/Module/LoopAnalysis.cpp`. The file holds the LLVM module pass
`LoopPrimary`. The pass is given two source locations, a *fix line* and a *crash line*,
each written as `"<file>:<line>"`. It also gets a caller-owned `std::set<Instruction*>`,
`TermInsts`. The pass takes the first defined function that holds a fix-line instruction, and
goes on only if that function is also the first one that holds a crash-line instruction.
It takes the first fix-line instruction (*Fix*) and the last crash-line instruction
(*Crash*) of the whole module. Then it fills
`TermInsts` with the instructions where execution leaves the region that Fix dominates on
the way to Crash:

- **Loop part (`processLoop`).** When Crash's block is in a loop, the pass adds that block's
  terminator. Then it climbs from the loop towards the outermost loop. It stops at the first
  loop that passes this test: take the exit blocks `getExitBlocks` reports, which already lie
  outside the loop; Fix must dominate every successor of those exit blocks that is outside
  the loop. The exit blocks themselves are not tested. From every exit block of that loop, it
  walks the successors with `processSucc`. A successor inside the loop is skipped, and so is a
  successor that Fix does not dominate: neither is entered nor recorded. The walk goes deeper
  into any other successor whose first instruction dominates Crash. Otherwise it records that
  successor's first instruction.
- **Non-loop part (`processNonLoop`).** When Fix dominates Crash, the pass adds the function's
  `ret` if the function has exactly one. When neither Fix's block nor Crash's block is in a
  loop, it also adds the instruction after the first crash-line instruction of Crash's block,
  and that block's terminator when Fix dominates it.

The model keeps these behaviours of the code as written:

- **Null pointers.** `getNextNode()` returns null after the last instruction of a block, and
  the pass inserts that value as it is. The output set's elements are therefore
  `InstPtr = Null | Ptr(InstRef)`. `NonLoopFrontier.CrashLineSuccessorAdded` shows that the
  successor of the first crash-line instruction is always added in that case, and that it
  is null only when Crash is the last instruction of its block.
- **Crash may lie in another function.** `inSameFunc` compares only the function of the
  *first* match on each side. The *last* crash-line instruction may therefore lie in a later
  function. Instructions are named globally, `InstRef(fn, blk, idx)`, so the model can say
  this.
- **`FixLoop` reads Crash's block.** At line 164, `FixLoop` is computed from Crash's block,
  so the test `CrashLoop == FixLoop` holds whenever Crash is in a loop. The model does the
  same.
- **`processSucc` has no visited set.** It can recurse forever on a cycle of successors.
  The model bounds the recursion by fuel equal to the number of blocks. The lemmas prove
  that this bound decides termination exactly: running out of that fuel means that the
  unbounded recursion never returns (`SuccessorWalk.OutOfBlockCountFuelDiverges`). A walk
  that finishes gives the same result under any larger bound. The pass's outcome therefore
  has a third case, `Diverges`, next to returning `true` or `false`. "Never returns" is about
  the recursion as written. `processSucc` is not tail-recursive, so the compiled pass would
  use more stack on every call until the stack overflows and the process crashes. `Diverges`
  stands for that crash.

Modules, in dependency order:

- `Wrappers`: the Option type.
- `DebugInfo`: `getSubprogramScope`, `getFileLastName`, and the `"file:line"` key.
- `IR`: the program structure and the scans over it.
- `Analyses`: dominator tree, loop nest, reachability, exit blocks and the climb.
- `Aggregator`: the output set, as a class updated in place.
- `Resolver`: `inSameFunc`.
- `SuccessorWalk`: `processSucc`.
- `LoopFrontier`: `processLoop`.
- `NonLoopFrontier`: `processNonLoop`.
- `LoopPrimaryPass`: `runOnModule` and the pass object.

Each loop of the source is a method with loop invariants. Each method is proved against a
specification function: `Selection`, `LoopPart`, `NonLoopPart` and `RunSpec`. The lemmas state
what those functions mean.

## Model

| member | source | states |
|---|---|---|
| DebugInfo.GetSubprogramScope | lib/Module/LoopAnalysis.cpp:58-71 | definition: the recursive walk up lexical-block parents; its meaning is stated by the next two lemmas |
| DebugInfo.SubprogramScopeResolves | lib/Module/LoopAnalysis.cpp:58-71 | a scope resolves to subprogram `sp` exactly when it is `sp` under some number of lexical blocks |
| DebugInfo.SubprogramScopeMissing | lib/Module/LoopAnalysis.cpp:58-71 | a scope resolves to null exactly when it is missing, or is a scope of another kind under some number of lexical blocks |
| DebugInfo.SubprogramFoundThroughBlocks | lib/Module/LoopAnalysis.cpp:63-69 | any number of lexical blocks around a subprogram is seen through |
| DebugInfo.NothingFoundThroughBlocks | lib/Module/LoopAnalysis.cpp:60-70 | lexical blocks around a missing scope or a foreign scope resolve to null |
| DebugInfo.FindLastOf | lib/Module/LoopAnalysis.cpp:74 | a position it returns lies in the string; the rest is stated by `DebugInfo.FindLastOfSpec` |
| DebugInfo.FindLastOfSpec | lib/Module/LoopAnalysis.cpp:74 | `find_last_of` finds a position holding the character with no later occurrence, and `npos` means the character does not occur |
| DebugInfo.FileLastName | lib/Module/LoopAnalysis.cpp:73-78 | definition: the text after the last '/', or the whole name; its meaning is stated by the next three lemmas |
| DebugInfo.FileLastNameSpec | lib/Module/LoopAnalysis.cpp:73-78 | the last name is a '/'-free suffix of the path: the whole path when it has no '/', otherwise the text just after a '/' |
| DebugInfo.FileLastNameUnique | lib/Module/LoopAnalysis.cpp:73-78 | any '/'-free suffix that is the whole path or follows a '/' is the last name, so the characterisation is complete |
| DebugInfo.FileLastNameIdempotent | lib/Module/LoopAnalysis.cpp:73-78 | cutting a path twice gives the same name as cutting it once |
| DebugInfo.NatToDecimal | lib/Module/LoopAnalysis.cpp:112 | definition: the decimal digits of a line number; its meaning is stated by the next three lemmas |
| DebugInfo.NatToDecimalDigits | lib/Module/LoopAnalysis.cpp:112 | `to_string` of a line number is a non-empty string of digits with a leading '0' only for zero |
| DebugInfo.DecimalRoundTrip | lib/Module/LoopAnalysis.cpp:112 | reading the decimal form of a line number back gives the number |
| DebugInfo.NatToDecimalInjective | lib/Module/LoopAnalysis.cpp:112 | different line numbers have different decimal forms |
| DebugInfo.LocationKey | lib/Module/LoopAnalysis.cpp:108-112 | definition: last file name, ':' and the decimal line; its meaning is stated by the next three lemmas |
| DebugInfo.LocationKeyEquality | lib/Module/LoopAnalysis.cpp:105-114 | two "file:line" keys are equal exactly when the last file names and the line numbers are equal |
| DebugInfo.LocationKeyHasNoSlash | lib/Module/LoopAnalysis.cpp:108-112 | a key built by the pass contains no '/' |
| DebugInfo.LocationKeyNormalised | lib/Module/LoopAnalysis.cpp:285-286 | normalising a key leaves it unchanged, so a normalised fix or crash line can equal a key |
| IR.TerminatorOf | lib/Module/LoopAnalysis.cpp:168 | `getTerminator` is the last instruction of the block |
| IR.NextNode | lib/Module/LoopAnalysis.cpp:264 | `getNextNode` is null exactly for the last instruction of a block, and otherwise the next instruction of the same block |
| IR.InstKey | lib/Module/LoopAnalysis.cpp:92-112 | definition: the key of an instruction, or none when the cascade skips it; its meaning is stated by `IR.InstKeyMatches` |
| IR.CurrentLocation | lib/Module/LoopAnalysis.cpp:92-112 | the skip cascade gives a key exactly when there is a debug location whose subprogram has a non-empty file name, and the key is "last file name:line"; it is `InstKey` |
| IR.InstKeyMatches | lib/Module/LoopAnalysis.cpp:92-114 | an instruction matches "file:line" exactly when its location is on that line and its subprogram has a non-empty file with the same last name |
| IR.SelectInBlockSpec | lib/Module/LoopAnalysis.cpp:91-126 | the scan of a block collects exactly the block's matching instructions, in order |
| IR.SelectInFunctionSpec | lib/Module/LoopAnalysis.cpp:90-129 | the scan of a function collects exactly its matching instructions, in block and instruction order |
| IR.SelectInModuleMember | lib/Module/LoopAnalysis.cpp:86-130 | an instruction is collected exactly when it is a matching instruction of a function that is not a declaration |
| IR.SelectInModuleOrdered | lib/Module/LoopAnalysis.cpp:86-130 | the collected instructions are in function, block and instruction order |
| IR.SelectInModuleSpec | lib/Module/LoopAnalysis.cpp:86-130 | membership and order of the module scan together |
| IR.InProgramOrderEnds | lib/Module/LoopAnalysis.cpp:299-300 | the front of an ordered match list comes before every other match, and its back after every other match |
| IR.InProgramOrderDistinct | lib/Module/LoopAnalysis.cpp:115-122 | the scan collects no instruction twice |
| Resolver.ScanBlock | lib/Module/LoopAnalysis.cpp:91-128 | the loop over a block appends the block's matches to both lists and keeps each first-match function equal to that of its list |
| Resolver.ScanFunction | lib/Module/LoopAnalysis.cpp:90-129 | the loop over a function's blocks appends the function's matches to both lists |
| Resolver.InSameFunc | lib/Module/LoopAnalysis.cpp:80-136 | both output lists are the module's matches in program order, and the result is the common function of their first elements, or none |
| Resolver.TargetOf | lib/Module/LoopAnalysis.cpp:132-135 | definition: the function of both first matches when they agree, else none; its meaning is stated by `Resolver.TargetIsCommonFirstFunction` |
| Resolver.FirstFunctionOfSelection | lib/Module/LoopAnalysis.cpp:117-125 | the first match lies in the first defined function that holds a match, and there is none exactly when no function holds one |
| Resolver.TargetIsCommonFirstFunction | lib/Module/LoopAnalysis.cpp:132-135 | inSameFunc returns fn exactly when fn is the first function with a fix-line match and also the first with a crash-line match |
| Resolver.FirstMatchingUnique | lib/Module/LoopAnalysis.cpp:117-125 | a line has at most one first matching function |
| Analyses.OutsideLoop | lib/Module/LoopAnalysis.cpp:183-185 | the successors kept are exactly those outside the loop |
| Analyses.ExitBlocks | lib/Module/LoopAnalysis.cpp:177-178 | every exit block lies in the function and outside the loop |
| Analyses.ExitBlocksUpTo | lib/Module/LoopAnalysis.cpp:177-178 | the exit blocks are exactly the out-of-loop successors of the loop's blocks |
| Analyses.ExitCovered | lib/Module/LoopAnalysis.cpp:183-194 | definition: Fix dominates every successor of one exit block that lies outside the loop; computed by `LoopFrontier.ScanExitSuccessors` |
| Analyses.Covers | lib/Module/LoopAnalysis.cpp:180-196 | definition: the DomAll test, every exit block covered; computed by `LoopFrontier.ComputeDomAll` |
| Analyses.Climb | lib/Module/LoopAnalysis.cpp:172-203 | the loop the climb stops at, if any, is a loop of the nest; its meaning is stated by the two climb lemmas below |
| Analyses.Ancestors | lib/Module/LoopAnalysis.cpp:201 | the chain of `getParentLoop` starts at the loop, follows parent links and ends at an outermost loop |
| Analyses.ClimbFailsIffNoAncestorCovers | lib/Module/LoopAnalysis.cpp:172-206 | the climb leaves no loop exactly when neither the loop nor any ancestor has all its exits dominated by Fix |
| Analyses.ClimbStopsAtFirstCoveringAncestor | lib/Module/LoopAnalysis.cpp:172-203 | when the climb stops at a loop, that loop is the first loop of the ancestor chain whose exits are all dominated by Fix |
| LoopFrontier.ScanExitSuccessors | lib/Module/LoopAnalysis.cpp:183-194 | the scan of one exit block's successors reports exactly whether Fix dominates each successor outside the loop |
| LoopFrontier.ComputeDomAll | lib/Module/LoopAnalysis.cpp:180-196 | DomAll is true exactly when Fix dominates every out-of-loop successor of every exit block |
| SuccessorWalk.WalkFrom | lib/Module/LoopAnalysis.cpp:138-157 | definition: processSucc on a block, one unit of fuel per level of recursion; its meaning is stated by the walk lemmas below |
| SuccessorWalk.WalkSuccs | lib/Module/LoopAnalysis.cpp:141-156 | definition: the loop of processSucc over the successors, in order |
| SuccessorWalk.Visit | lib/Module/LoopAnalysis.cpp:142-154 | definition: one iteration of that loop: skip, recurse or insert |
| SuccessorWalk.WalkExits | lib/Module/LoopAnalysis.cpp:211-213 | definition: processSucc on every exit block, in order |
| SuccessorWalk.WalkSuccsFound | lib/Module/LoopAnalysis.cpp:141-156 | the loop over successors, when it finishes, holds exactly what its iterations found |
| SuccessorWalk.WalkExitsFound | lib/Module/LoopAnalysis.cpp:211-213 | the loop over exit blocks, when it finishes, holds exactly what the walks found |
| SuccessorWalk.ReachesThroughEdge | lib/Module/LoopAnalysis.cpp:148-150 | a call that recurses into a block reaches every block that call reaches |
| SuccessorWalk.WalkFoundIsReached | lib/Module/LoopAnalysis.cpp:138-157 | everything processSucc inserts is the front of a frontier successor of a block its recursion reaches |
| SuccessorWalk.ReachedFrontierIsFound | lib/Module/LoopAnalysis.cpp:138-157 | processSucc, when it returns, inserts the front of every frontier successor of every block its recursion reaches |
| SuccessorWalk.WalkFindsExactlyReachedFrontier | lib/Module/LoopAnalysis.cpp:138-157 | a processSucc call that returns inserts exactly the fronts of the frontier successors of the blocks its recursion reaches |
| SuccessorWalk.VisitSucc | lib/Module/LoopAnalysis.cpp:142-154 | one successor: skip it (in the loop, or not dominated by Fix), recurse into it, or insert its front |
| SuccessorWalk.ProcessSucc | lib/Module/LoopAnalysis.cpp:138-157 | processSucc returns exactly when the walk finishes, and then the set has grown by exactly what the walk finds |
| SuccessorWalk.WalkInsertsOnlyFrontierFronts | lib/Module/LoopAnalysis.cpp:148-153 | processSucc inserts only first instructions of successors outside the loop that Fix dominates and whose front does not dominate Crash |
| SuccessorWalk.WalkFuelMonotone | lib/Module/LoopAnalysis.cpp:138-157 | a walk that finishes under a bound gives the same result under any larger bound |
| SuccessorWalk.CycleDiverges | lib/Module/LoopAnalysis.cpp:148-150 | processSucc on a block of a cycle of recursive calls never returns |
| SuccessorWalk.OutOfBlockCountFuelDiverges | lib/Module/LoopAnalysis.cpp:138-157 | running out of a bound equal to the block count means that processSucc never returns |
| SuccessorWalk.BlockCountFuelDecides | lib/Module/LoopAnalysis.cpp:138-157 | the walk under the block-count bound is the unbounded processSucc: it diverges under every bound or agrees with every larger one |
| LoopFrontier.ProcessExits | lib/Module/LoopAnalysis.cpp:208-213 | processSucc runs on every exit block in order; the loop returns exactly when every walk finishes, and the set grows by what they find |
| LoopFrontier.ProcessLoop | lib/Module/LoopAnalysis.cpp:159-214 | processLoop returns exactly when its walk finishes, and then the set has grown by exactly the loop part |
| LoopFrontier.LoopTerminator | lib/Module/LoopAnalysis.cpp:163-170 | definition: Crash's terminator when Crash's block is in a loop; the `FixLoop` test is always met then |
| LoopFrontier.LoopPart | lib/Module/LoopAnalysis.cpp:159-214 | definition: the terminator, then the climb and the exit walks; its meaning is stated by `LoopFrontier.LoopPartMembers` and `LoopFrontier.LoopPartDivergesIff` |
| LoopFrontier.LoopWalkMembers | lib/Module/LoopAnalysis.cpp:208-213 | the exit-block loop, when it returns, holds exactly the frontier fronts reached from one of the exit blocks |
| LoopFrontier.LoopPartAddsCrashTerminator | lib/Module/LoopAnalysis.cpp:163-170 | when Crash's block is in a loop, its terminator is added |
| LoopFrontier.LoopPartOutsideLoops | lib/Module/LoopAnalysis.cpp:163-206 | when Crash's block is in no loop, processLoop adds nothing |
| LoopFrontier.LoopPartWithoutCoveringAncestor | lib/Module/LoopAnalysis.cpp:172-206 | when no loop of the chain has its exits dominated by Fix, only the terminator is added |
| LoopFrontier.LoopPartMembers | lib/Module/LoopAnalysis.cpp:159-214 | when processLoop returns, p is added exactly when p is Crash's terminator (its block in a loop) or the front of a frontier successor of a block reached from an exit block of the loop the climb stops at; that loop is the first covering one of the chain |
| LoopFrontier.LoopPartInsertsInstructions | lib/Module/LoopAnalysis.cpp:159-214 | processLoop inserts only instructions of the module, never null |
| LoopFrontier.LoopPartDivergesIff | lib/Module/LoopAnalysis.cpp:172-213 | processLoop never returns exactly when the climb stops at a loop and processSucc never returns for one of that loop's exit blocks |
| NonLoopFrontier.FirstKeyed | lib/Module/LoopAnalysis.cpp:240-266 | the block scan finds an instruction that carries the crash line with none before it, or reports that none carries it |
| NonLoopFrontier.RetsOf | lib/Module/LoopAnalysis.cpp:224-231 | definition: the function's `ret` instructions in block and instruction order |
| NonLoopFrontier.SingleRet | lib/Module/LoopAnalysis.cpp:232-234 | definition: the last `ret` when there is exactly one; its meaning is stated by `NonLoopFrontier.SingleRetIffOnlyRet` |
| NonLoopFrontier.AfterCrashLine | lib/Module/LoopAnalysis.cpp:240-267 | definition: `getNextNode` of the first crash-line instruction of Crash's block; its meaning is stated by `NonLoopFrontier.AfterCrashLineIff` |
| NonLoopFrontier.CrashBlockTerminator | lib/Module/LoopAnalysis.cpp:269-273 | definition: Crash's terminator when Fix dominates it |
| NonLoopFrontier.NonLoopPart | lib/Module/LoopAnalysis.cpp:216-276 | definition: what processNonLoop adds; its meaning is stated by `NonLoopFrontier.NonLoopPartMembers` |
| NonLoopFrontier.CountRets | lib/Module/LoopAnalysis.cpp:222-231 | RetNum is the number of `ret` instructions of the function and LastRet is the last of them |
| NonLoopFrontier.InsertSingleRet | lib/Module/LoopAnalysis.cpp:222-234 | the set grows by the only `ret` when there is exactly one, and by nothing otherwise |
| NonLoopFrontier.SingleRetIffOnlyRet | lib/Module/LoopAnalysis.cpp:222-234 | the `ret` step adds p exactly when p is the function's one and only `ret` |
| NonLoopFrontier.InsertAfterCrashLine | lib/Module/LoopAnalysis.cpp:240-267 | the scan of Crash's block grows the set by the successor of the first crash-line instruction, if any |
| NonLoopFrontier.FirstKeyedFindsFirstCrashLine | lib/Module/LoopAnalysis.cpp:240-266 | what the scan stops at is the first crash-line instruction of the block |
| NonLoopFrontier.FirstCrashLineIsFound | lib/Module/LoopAnalysis.cpp:240-266 | the first crash-line instruction of the block is what the scan stops at |
| NonLoopFrontier.AfterCrashLineIff | lib/Module/LoopAnalysis.cpp:240-267 | the scan adds p exactly when p is `getNextNode` of the first crash-line instruction of Crash's block |
| NonLoopFrontier.InsertCrashBlockFrontier | lib/Module/LoopAnalysis.cpp:239-274 | the crash-block step adds the scan's result and the terminator when Fix dominates it |
| NonLoopFrontier.ProcessNonLoop | lib/Module/LoopAnalysis.cpp:216-276 | processNonLoop grows the set by exactly the non-loop part |
| NonLoopFrontier.NonLoopPartMembers | lib/Module/LoopAnalysis.cpp:216-276 | the non-loop part is empty unless Fix dominates Crash; then it is the only `ret`, and, when neither block is in a loop, the successor of the crash line and the dominated terminator |
| NonLoopFrontier.CrashLineSuccessorAdded | lib/Module/LoopAnalysis.cpp:263-265 | when Crash carries the crash line, neither block is in a loop and Fix dominates Crash, the successor of the first crash-line instruction (at or before Crash) is added, and null is added only when Crash ends its block |
| LoopPrimaryPass.SelectionIsKeyed | lib/Module/LoopAnalysis.cpp:293 | the match lists hold exactly the instructions of defined functions that carry the line, in program order |
| LoopPrimaryPass.FirstMatch | lib/Module/LoopAnalysis.cpp:300 | FixFront carries the fix line and comes before every other instruction that does |
| LoopPrimaryPass.LastMatch | lib/Module/LoopAnalysis.cpp:299 | CrashLast carries the crash line and comes after every other instruction that does |
| LoopPrimaryPass.Target | lib/Module/LoopAnalysis.cpp:293-297 | when a target is found, it is a function of the module and both match lists are non-empty |
| LoopPrimaryPass.TargetIsCommonFirst | lib/Module/LoopAnalysis.cpp:285-297 | the target is fn exactly when fn is the first function holding each normalised line |
| LoopPrimaryPass.TargetRun | lib/Module/LoopAnalysis.cpp:324-330 | definition: the reachability test, then the loop part and the non-loop part; computed by `LoopPrimaryPass.RunOnTarget` |
| LoopPrimaryPass.RunSpec | lib/Module/LoopAnalysis.cpp:283-344 | definition: runOnModule from the raw locations; computed by `LoopPrimaryPass.LoopPrimary.RunOnModule`, its meaning stated by the lemmas below |
| LoopPrimaryPass.RunSpecCases | lib/Module/LoopAnalysis.cpp:293-330 | the run is "false, nothing added" without a target, and otherwise the target run from the front fix match and the back crash match |
| LoopPrimaryPass.RunReturnsFalseIff | lib/Module/LoopAnalysis.cpp:293-326 | runOnModule returns false exactly when there is no common function or Crash is not reachable from Fix, and it then adds nothing |
| LoopPrimaryPass.RunDivergesIff | lib/Module/LoopAnalysis.cpp:324-330 | runOnModule never returns exactly when Crash is reachable and processSucc diverges on an exit block of the loop the climb stops at |
| LoopPrimaryPass.TargetRunAddsInstructionsOrNull | lib/Module/LoopAnalysis.cpp:328-330 | a run that returns true adds instructions of the module, and null only when Crash ends its block |
| LoopPrimaryPass.RunAddsInstructionsOrNull | lib/Module/LoopAnalysis.cpp:283-344 | the same, for runOnModule from the raw locations |
| LoopPrimaryPass.RunAddsCrashTerminatorInLoop | lib/Module/LoopAnalysis.cpp:328 | a run that returns true with Crash in a loop adds Crash's terminator |
| LoopPrimaryPass.RunAddsSingleRet | lib/Module/LoopAnalysis.cpp:330 | a run that returns true, where Fix dominates Crash, adds the target's only `ret` |
| LoopPrimaryPass.RerunIsSameRun | lib/Module/LoopAnalysis.cpp:285-286 | running the pass again on its stored, normalised locations gives the same outcome and adds the same set |
| LoopPrimaryPass.RunOnTarget | lib/Module/LoopAnalysis.cpp:324-330 | the body for the target: false when unreachable, otherwise processLoop then processNonLoop, growing the set by both parts |
| LoopPrimaryPass.LoopPrimary.constructor | lib/Module/LoopAnalysis.cpp:352-353 | the pass keeps the two locations and the caller's output set |
| LoopPrimaryPass.LoopPrimary.RunOnModule | lib/Module/LoopAnalysis.cpp:283-344 | stores the normalised locations, returns what RunSpec says, and when it returns grows the set by exactly what RunSpec adds |
| Aggregator.FrontierSet.Insert | lib/Module/LoopAnalysis.cpp:153 | inserting adds the element, and inserting an element already present changes nothing |

## Left out

- The construction of the compiled program, the `DominatorTree` (line 311) and the `LoopInfo` (line 312). They are inputs of the model: a well-formed program and, for each function, its dominance and loop-nest answers.
- The internals of `isPotentiallyReachable` (line 324). It is an input query of the model.
- The `errs()` diagnostics (lines 288, 295, 333-341). The printing loop at lines 334-340 calls `I->getDebugLoc()` and `I->print` on every element of the set, which would dereference a null element. Printing is not modelled, so neither is that dereference.
- The `#if 0` block (lines 314-322). It is not compiled.
- The pass registration, `getAnalysisUsage` and `createLoopPrimary` (lines 281, 347-354), except that the constructor keeps the two locations and the output set.
- The integer widths. `RetNum` (an `int`) and `Line` (an `unsigned`) are unbounded in the model. A function with more than 2^31-1 `ret` instructions, or a line number above 2^32-1, is beyond what the model says.
- SuccessorWalk.ProcessSucc: recursion is bounded by fuel equal to the number of blocks. The real recursion has no bound. `BlockCountFuelDecides` and `OutOfBlockCountFuelDiverges` prove that this bound loses nothing: the bounded walk runs out exactly when the real one never returns. In the compiled pass
  that endless recursion is a stack overflow, which the model reports as `Diverges`.
- Analyses.ExitBlocks: the exit blocks are taken in the order of the loop's blocks and of each block's successors. LLVM's `getExitBlocks` does the same, but the model takes that order as given.
- The debug-metadata classes (`MDNode`, `DILexicalBlock`, `DISubprogram`) are reduced to the scope chain and a file name. `StringRef` and `std::string` are both sequences of characters.
- The rest of the repository, including the callers that create the pass and read `TermInsts`, is not part of this model.
