/** LoopPrimary::runOnModule: normalise the two locations, resolve them to a target
    function, take the first fix-line and the last crash-line instruction, give up when the
    crash is not reachable from the fix, and otherwise run the loop part and the non-loop
    part on the target function, inserting into the caller's output set. */
module LoopPrimaryPass {
  import opened Wrappers
  import opened DebugInfo
  import opened IR
  import opened Analyses
  import opened SuccessorWalk
  import opened LoopFrontier
  import opened NonLoopFrontier
  import opened Resolver
  import opened Aggregator

  /** How runOnModule ends: it returns a value, or its processSucc recursion has no end.
      processSucc is not tail-recursive, so in the compiled pass Diverges stands for a call
      stack that grows until it overflows and the process crashes. */
  datatype RunOutcome = Returned(value: bool) | Diverges

  /** The outcome of runOnModule and what it adds to the output set when it returns. */
  datatype Run = Run(outcome: RunOutcome, added: set<InstPtr>)

  /** The compiled program is well formed and each function comes with its own analyses. */
  ghost predicate ValidInputs(m: IRModule, analyses: seq<FunctionAnalysis>)
  {
    && WellFormed(m)
    && |analyses| == |m.functions|
    && forall fn :: 0 <= fn < |m.functions| ==> ValidAnalysis(m, fn, analyses[fn])
  }

  /** An instruction of a defined function that carries key. */
  predicate Keyed(m: IRModule, key: string, r: InstRef)
  {
    && ValidInst(m, r)
    && !m.functions[r.fn].isDeclaration
    && InstKey(InstAt(m, r)) == Some(key)
  }

  /** The instructions the scan for key collects are exactly the keyed ones, in program order. */
  lemma SelectionIsKeyed(m: IRModule, key: string)
    ensures forall r :: r in Selection(m, AtLocation(key)) <==> Keyed(m, key, r)
    ensures InProgramOrder(Selection(m, AtLocation(key)))
  {
    SelectInModuleSpec(m, AtLocation(key), |m.functions|);
  }

  /** FixLineInsts.front(): the first instruction of the module that carries key. */
  function FirstMatch(m: IRModule, key: string): (r: InstRef)
    requires |Selection(m, AtLocation(key))| > 0
    ensures Keyed(m, key, r)
    ensures forall r' :: Keyed(m, key, r') ==> r' == r || Before(r, r')
  {
    var rs := Selection(m, AtLocation(key));
    SelectionIsKeyed(m, key);
    InProgramOrderEnds(rs);
    assert rs[0] in rs;
    rs[0]
  }

  /** CrashLineInsts.back(): the last instruction of the module that carries key. */
  function LastMatch(m: IRModule, key: string): (r: InstRef)
    requires |Selection(m, AtLocation(key))| > 0
    ensures Keyed(m, key, r)
    ensures forall r' :: Keyed(m, key, r') ==> r' == r || Before(r', r)
  {
    var rs := Selection(m, AtLocation(key));
    SelectionIsKeyed(m, key);
    InProgramOrderEnds(rs);
    assert rs[|rs| - 1] in rs;
    rs[|rs| - 1]
  }

  /** Function fn is the first defined function holding a fix-line instruction and also the
      first holding a crash-line instruction (lines normalised as runOnModule does). */
  ghost predicate CommonFirstFunction(m: IRModule, fixLine0: string, crashLine0: string, fn: nat)
  {
    && FirstMatchingFunction(m, AtLocation(FileLastName(fixLine0)), fn)
    && FirstMatchingFunction(m, AtLocation(FileLastName(crashLine0)), fn)
  }

  /** The function inSameFunc picks for the normalised lines. */
  function Target(m: IRModule, fixLine0: string, crashLine0: string): (t: Option<nat>)
    ensures t.Some? ==> && t.value < |m.functions|
                        && |Selection(m, AtLocation(FileLastName(fixLine0)))| > 0
                        && |Selection(m, AtLocation(FileLastName(crashLine0)))| > 0
  {
    var fixInsts := Selection(m, AtLocation(FileLastName(fixLine0)));
    var crashInsts := Selection(m, AtLocation(FileLastName(crashLine0)));
    SelectInModuleSpec(m, AtLocation(FileLastName(fixLine0)), |m.functions|);
    assert fixInsts != [] ==> fixInsts[0] in fixInsts;
    TargetOf(fixInsts, crashInsts)
  }

  /** The target is fn exactly when fn is the common first function of the two lines. */
  lemma TargetIsCommonFirst(m: IRModule, fixLine0: string, crashLine0: string, fn: nat)
    ensures Target(m, fixLine0, crashLine0) == Some(fn) <==> CommonFirstFunction(m, fixLine0, crashLine0, fn)
  {
    TargetIsCommonFirstFunction(m, FileLastName(fixLine0), FileLastName(crashLine0), fn);
  }

  /** FixLineInsts.front() and CrashLineInsts.back() of a run that found its target. */
  function FixFront(m: IRModule, fixLine0: string, crashLine0: string): InstRef
    requires Target(m, fixLine0, crashLine0).Some?
  {
    FirstMatch(m, FileLastName(fixLine0))
  }

  function CrashLast(m: IRModule, fixLine0: string, crashLine0: string): InstRef
    requires Target(m, fixLine0, crashLine0).Some?
  {
    LastMatch(m, FileLastName(crashLine0))
  }

  /** The part of runOnModule after the target function fn, Fix and Crash are known. */
  function TargetRun(m: IRModule, analyses: seq<FunctionAnalysis>, fn: nat, fix: InstRef, crash: InstRef, crashLine: string): Run
    requires ValidInputs(m, analyses) && fn < |m.functions| && ValidBlock(m, crash.Parent())
  {
    var a := analyses[fn];
    if !a.potentiallyReachable(fix, crash) then Run(Returned(false), {})
    else
      match LoopPart(m, fn, a, fix, crash)
      case OutOfFuel => Run(Diverges, {})
      case Finished(found) => Run(Returned(true), found + NonLoopPart(m, fn, a, fix, crash, crashLine))
  }

  /** runOnModule, given the locations before normalisation. */
  function RunSpec(m: IRModule, analyses: seq<FunctionAnalysis>, fixLine0: string, crashLine0: string): Run
    requires ValidInputs(m, analyses)
  {
    match Target(m, fixLine0, crashLine0)
    case None => Run(Returned(false), {})
    case Some(fn) =>
      TargetRun(m, analyses, fn, FixFront(m, fixLine0, crashLine0), CrashLast(m, fixLine0, crashLine0), FileLastName(crashLine0))
  }

  /** RunSpec in terms of the two match lists inSameFunc returns. */
  lemma RunSpecCases(m: IRModule, analyses: seq<FunctionAnalysis>, fixLine0: string, crashLine0: string)
    requires ValidInputs(m, analyses)
    ensures var fixInsts := Selection(m, AtLocation(FileLastName(fixLine0)));
            var crashInsts := Selection(m, AtLocation(FileLastName(crashLine0)));
            && Target(m, fixLine0, crashLine0) == TargetOf(fixInsts, crashInsts)
            && (Target(m, fixLine0, crashLine0).None? ==> RunSpec(m, analyses, fixLine0, crashLine0) == Run(Returned(false), {}))
            && (Target(m, fixLine0, crashLine0).Some? ==>
                  && |fixInsts| > 0 && |crashInsts| > 0
                  && RunSpec(m, analyses, fixLine0, crashLine0)
                     == TargetRun(m, analyses, Target(m, fixLine0, crashLine0).value, fixInsts[0],
                                  crashInsts[|crashInsts| - 1], FileLastName(crashLine0)))
  {
  }

  /** runOnModule returns false exactly when the two lines have no common first function, or
      when the last crash-line instruction is not reachable from the first fix-line
      instruction; it then adds nothing. */
  lemma RunReturnsFalseIff(m: IRModule, analyses: seq<FunctionAnalysis>, fixLine0: string, crashLine0: string)
    requires ValidInputs(m, analyses)
    ensures RunSpec(m, analyses, fixLine0, crashLine0).outcome == Returned(false)
            <==> || Target(m, fixLine0, crashLine0).None?
                 || !analyses[Target(m, fixLine0, crashLine0).value].potentiallyReachable(
                       FixFront(m, fixLine0, crashLine0), CrashLast(m, fixLine0, crashLine0))
    ensures RunSpec(m, analyses, fixLine0, crashLine0).outcome == Returned(false)
            ==> RunSpec(m, analyses, fixLine0, crashLine0).added == {}
  {
    match Target(m, fixLine0, crashLine0)
    case None =>
    case Some(fn) =>
      var fix, crash := FixFront(m, fixLine0, crashLine0), CrashLast(m, fixLine0, crashLine0);
      assert RunSpec(m, analyses, fixLine0, crashLine0) == TargetRun(m, analyses, fn, fix, crash, FileLastName(crashLine0));
  }

  /** runOnModule never returns exactly when the crash is reachable and processSucc, called on
      an exit block of the loop the climb stops at, never returns. */
  lemma RunDivergesIff(m: IRModule, analyses: seq<FunctionAnalysis>, fixLine0: string, crashLine0: string)
    requires ValidInputs(m, analyses)
    ensures RunSpec(m, analyses, fixLine0, crashLine0).outcome == Diverges
            <==> && Target(m, fixLine0, crashLine0).Some?
                 && var fn := Target(m, fixLine0, crashLine0).value;
                    var a := analyses[fn];
                    var fix := FixFront(m, fixLine0, crashLine0);
                    var crash := CrashLast(m, fixLine0, crashLine0);
                    && a.potentiallyReachable(fix, crash)
                    && Climb(m, fn, a, a.loopFor(crash.Parent()), fix).Some?
                    && var ctx := LoopContext(m, fn, a, Climb(m, fn, a, a.loopFor(crash.Parent()), fix).value, fix, crash);
                       var exits := ExitBlocks(ctx.f, ctx.loop);
                       exists j :: 0 <= j < |exits| && SuccessorWalk.Diverges(ctx, exits[j])
  {
    if Target(m, fixLine0, crashLine0).Some? {
      var fn := Target(m, fixLine0, crashLine0).value;
      LoopPartDivergesIff(m, fn, analyses[fn], FixFront(m, fixLine0, crashLine0), CrashLast(m, fixLine0, crashLine0));
    }
  }

  /** What a returning run adds is made of instructions of the module, plus possibly a null
      pointer, and the null pointer only when the last crash-line instruction ends its block. */
  lemma TargetRunAddsInstructionsOrNull(m: IRModule, analyses: seq<FunctionAnalysis>, fn: nat, fix: InstRef, crash: InstRef, crashLine: string)
    requires ValidInputs(m, analyses) && fn < |m.functions| && ValidInst(m, crash)
    requires InstKey(InstAt(m, crash)) == Some(crashLine)
    requires TargetRun(m, analyses, fn, fix, crash, crashLine).outcome == Returned(true)
    ensures forall p :: p in TargetRun(m, analyses, fn, fix, crash, crashLine).added && p.Ptr? ==> ValidInst(m, p.ref)
    ensures Null in TargetRun(m, analyses, fn, fix, crash, crashLine).added
            ==> crash.idx + 1 == |BlockAt(m, crash.Parent()).insts|
  {
    var a := analyses[fn];
    var added := TargetRun(m, analyses, fn, fix, crash, crashLine).added;
    var loopPart := LoopPart(m, fn, a, fix, crash).found;
    assert added == loopPart + NonLoopPart(m, fn, a, fix, crash, crashLine);
    LoopPartInsertsInstructions(m, fn, a, fix, crash);
    forall p | p in added && p.Ptr? && p !in loopPart ensures ValidInst(m, p.ref) {
      NonLoopPartMembers(m, fn, a, fix, crash, crashLine, p);
    }
    if Null in added {
      NonLoopPartMembers(m, fn, a, fix, crash, crashLine, Null);
      CrashLineSuccessorAdded(m, fn, a, fix, crash, crashLine);
    }
  }

  lemma RunAddsInstructionsOrNull(m: IRModule, analyses: seq<FunctionAnalysis>, fixLine0: string, crashLine0: string)
    requires ValidInputs(m, analyses)
    requires RunSpec(m, analyses, fixLine0, crashLine0).outcome == Returned(true)
    ensures forall p :: p in RunSpec(m, analyses, fixLine0, crashLine0).added && p.Ptr? ==> ValidInst(m, p.ref)
    ensures Null in RunSpec(m, analyses, fixLine0, crashLine0).added
            ==> var crash := CrashLast(m, fixLine0, crashLine0);
                crash.idx + 1 == |BlockAt(m, crash.Parent()).insts|
  {
    var fn := Target(m, fixLine0, crashLine0).value;
    TargetRunAddsInstructionsOrNull(m, analyses, fn, FixFront(m, fixLine0, crashLine0),
                                    CrashLast(m, fixLine0, crashLine0), FileLastName(crashLine0));
  }

  /** A returning run whose last crash-line instruction sits in a loop adds the terminator of
      that instruction's block. */
  lemma RunAddsCrashTerminatorInLoop(m: IRModule, analyses: seq<FunctionAnalysis>, fixLine0: string, crashLine0: string)
    requires ValidInputs(m, analyses)
    requires RunSpec(m, analyses, fixLine0, crashLine0).outcome == Returned(true)
    requires analyses[Target(m, fixLine0, crashLine0).value].loopFor(CrashLast(m, fixLine0, crashLine0).Parent()).Some?
    ensures Ptr(TerminatorOf(m, CrashLast(m, fixLine0, crashLine0).Parent()))
            in RunSpec(m, analyses, fixLine0, crashLine0).added
  {
    var fn := Target(m, fixLine0, crashLine0).value;
    LoopPartAddsCrashTerminator(m, fn, analyses[fn], FixFront(m, fixLine0, crashLine0), CrashLast(m, fixLine0, crashLine0));
  }

  /** A returning run in which the first fix-line instruction dominates the last crash-line
      instruction adds the target function's `ret` when it has only one. */
  lemma RunAddsSingleRet(m: IRModule, analyses: seq<FunctionAnalysis>, fixLine0: string, crashLine0: string, r: InstRef)
    requires ValidInputs(m, analyses)
    requires RunSpec(m, analyses, fixLine0, crashLine0).outcome == Returned(true)
    requires analyses[Target(m, fixLine0, crashLine0).value].dominates(
               FixFront(m, fixLine0, crashLine0), CrashLast(m, fixLine0, crashLine0))
    requires OnlyRetOf(m, Target(m, fixLine0, crashLine0).value, r)
    ensures Ptr(r) in RunSpec(m, analyses, fixLine0, crashLine0).added
  {
    var fn := Target(m, fixLine0, crashLine0).value;
    NonLoopPartMembers(m, fn, analyses[fn], FixFront(m, fixLine0, crashLine0), CrashLast(m, fixLine0, crashLine0),
                       FileLastName(crashLine0), Ptr(r));
  }

  /** runOnModule stores the normalised locations back into the pass, and running it again
      from them gives the same run: a second call returns what the first returned and
      inserts only elements the first call already inserted. */
  lemma RerunIsSameRun(m: IRModule, analyses: seq<FunctionAnalysis>, fixLine0: string, crashLine0: string)
    requires ValidInputs(m, analyses)
    ensures RunSpec(m, analyses, FileLastName(fixLine0), FileLastName(crashLine0))
            == RunSpec(m, analyses, fixLine0, crashLine0)
  {
    FileLastNameIdempotent(fixLine0);
    FileLastNameIdempotent(crashLine0);
  }

  /** The pass object: the two locations it was created with and the caller's output set. */
  class LoopPrimary {
    var fixLine: string
    var crashLine: string
    const termInsts: FrontierSet

    constructor (fixLine0: string, crashLine0: string, out: FrontierSet)
      ensures fixLine == fixLine0 && crashLine == crashLine0 && termInsts == out
    {
      fixLine := fixLine0;
      crashLine := crashLine0;
      termInsts := out;
    }

    /** runOnModule. The set is only ever inserted into: when the run returns, it holds what
        it held before plus what RunSpec adds. */
    method RunOnModule(m: IRModule, analyses: seq<FunctionAnalysis>) returns (outcome: RunOutcome)
      requires ValidInputs(m, analyses)
      modifies this, termInsts
      ensures fixLine == FileLastName(old(fixLine)) && crashLine == FileLastName(old(crashLine))
      ensures outcome == RunSpec(m, analyses, old(fixLine), old(crashLine)).outcome
      ensures outcome.Returned?
              ==> termInsts.elems == old(termInsts.elems) + RunSpec(m, analyses, old(fixLine), old(crashLine)).added
    {
      RunSpecCases(m, analyses, fixLine, crashLine);
      hide RunSpec, TargetRun, Target, FileLastName, Selection;
      ghost var spec := RunSpec(m, analyses, fixLine, crashLine);
      fixLine := FileLastName(fixLine);
      crashLine := FileLastName(crashLine);

      var target, fixLineInsts, crashLineInsts := InSameFunc(m, fixLine, crashLine);
      if target.None? {
        return Returned(false);
      }

      var crashLast := crashLineInsts[|crashLineInsts| - 1];
      var fixFront := fixLineInsts[0];
      var fn := target.value;
      assert spec == TargetRun(m, analyses, fn, fixFront, crashLast, crashLine);

      for fi := 0 to |m.functions|
        invariant fixLine == FileLastName(old(fixLine)) && crashLine == FileLastName(old(crashLine))
        invariant fi <= fn ==> termInsts.elems == old(termInsts.elems)
        invariant fi > fn ==> spec.outcome == Returned(true) && termInsts.elems == old(termInsts.elems) + spec.added
      {
        if m.functions[fi].isDeclaration {
          continue;
        }
        if fi != fn {
          continue;
        }
        outcome := RunOnTarget(m, analyses, fi, fixFront, crashLast, crashLine, termInsts);
        if outcome != Returned(true) {
          return;
        }
      }
      return Returned(true);
    }
  }

  /** The body of runOnModule's loop for the target function fn: the reachability test, then
      processLoop and processNonLoop. */
  method RunOnTarget(m: IRModule, analyses: seq<FunctionAnalysis>, fn: nat, fix: InstRef, crash: InstRef,
                     crashLine: string, termInsts: FrontierSet) returns (outcome: RunOutcome)
    requires ValidInputs(m, analyses) && fn < |m.functions| && ValidBlock(m, crash.Parent())
    modifies termInsts
    ensures outcome == TargetRun(m, analyses, fn, fix, crash, crashLine).outcome
    ensures outcome.Returned?
            ==> termInsts.elems == old(termInsts.elems) + TargetRun(m, analyses, fn, fix, crash, crashLine).added
  {
    var a := analyses[fn];
    if !a.potentiallyReachable(fix, crash) {
      return Returned(false);
    }
    var finished := ProcessLoop(m, fn, a, fix, crash, termInsts);
    if !finished {
      return Diverges;
    }
    ProcessNonLoop(m, fn, a, fix, crash, termInsts, crashLine);
    return Returned(true);
  }
}
