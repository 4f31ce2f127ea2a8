/** processLoop: when Crash sits in a loop, add its block's terminator, climb the loop
    nest to the first loop whose ways out Fix dominates, and walk from that loop's exit
    blocks with processSucc. */
module LoopFrontier {
  import opened Wrappers
  import opened IR
  import opened Analyses
  import opened SuccessorWalk
  import opened Aggregator

  /** The walk context for loop l of function fn. */
  function LoopContext(m: IRModule, fn: nat, a: FunctionAnalysis, l: nat, fix: InstRef, crash: InstRef): (ctx: WalkContext)
    requires ValidAnalysis(m, fn, a) && l < |a.loops|
    ensures ValidContext(ctx) && ctx.f == m.functions[fn] && ctx.loop == a.loops[l]
  {
    WalkContext(m.functions[fn], fn, a, a.loops[l], fix, crash)
  }

  /** The terminator processLoop adds first: that of Crash's block, when the block is in a
      loop. (Both loop variables of the source are read from Crash's block, so their
      equality test only asks that the block be in some loop.) */
  function LoopTerminator(m: IRModule, fn: nat, a: FunctionAnalysis, crash: InstRef): set<InstPtr>
    requires WellFormed(m) && ValidAnalysis(m, fn, a)
  {
    if a.loopFor(crash.Parent()).Some? then {Ptr(TerminatorOf(m, crash.Parent()))} else {}
  }

  /** What processLoop adds, or OutOfFuel when its walk recurses without end. */
  function LoopPart(m: IRModule, fn: nat, a: FunctionAnalysis, fix: InstRef, crash: InstRef): Walk
    requires WellFormed(m) && ValidAnalysis(m, fn, a)
  {
    match Climb(m, fn, a, a.loopFor(crash.Parent()), fix)
    case None => Finished(LoopTerminator(m, fn, a, crash))
    case Some(l) =>
      var ctx := LoopContext(m, fn, a, l, fix, crash);
      Join(Finished(LoopTerminator(m, fn, a, crash)),
           WalkExits(ctx, ExitBlocks(ctx.f, ctx.loop), |ctx.f.blocks|))
  }

  /** When Crash's block is in a loop and processLoop returns, the block's terminator
      is in what it added. */
  lemma LoopPartAddsCrashTerminator(m: IRModule, fn: nat, a: FunctionAnalysis, fix: InstRef, crash: InstRef)
    requires WellFormed(m) && ValidAnalysis(m, fn, a)
    requires a.loopFor(crash.Parent()).Some? && LoopPart(m, fn, a, fix, crash).Finished?
    ensures Ptr(TerminatorOf(m, crash.Parent())) in LoopPart(m, fn, a, fix, crash).found
  {
  }

  /** When Crash's block is in no loop, processLoop adds nothing. */
  lemma LoopPartOutsideLoops(m: IRModule, fn: nat, a: FunctionAnalysis, fix: InstRef, crash: InstRef)
    requires WellFormed(m) && ValidAnalysis(m, fn, a)
    requires a.loopFor(crash.Parent()).None?
    ensures LoopPart(m, fn, a, fix, crash) == Finished({})
  {
  }

  /** When no loop among Crash's loop and its ancestors has all its ways out dominated by
      Fix, processLoop adds at most the terminator of Crash's block. */
  lemma LoopPartWithoutCoveringAncestor(m: IRModule, fn: nat, a: FunctionAnalysis, fix: InstRef, crash: InstRef)
    requires WellFormed(m) && ValidAnalysis(m, fn, a)
    requires a.loopFor(crash.Parent()).Some?
    requires NoneCovers(m, fn, a, Ancestors(m, fn, a, a.loopFor(crash.Parent()).value), fix)
    ensures LoopPart(m, fn, a, fix, crash) == Finished({Ptr(TerminatorOf(m, crash.Parent()))})
  {
    ClimbFailsIffNoAncestorCovers(m, fn, a, a.loopFor(crash.Parent()).value, fix);
  }

  /** What processLoop adds, when it returns, is exactly the terminator of Crash's block (when
      the block is in a loop) and, when the climb stops at a loop, the first instruction of
      every frontier block that follows a block reached by processSucc from one of that loop's
      exit blocks. That loop is the first among Crash's loop and its ancestors whose ways out
      Fix dominates. */
  lemma LoopPartMembers(m: IRModule, fn: nat, a: FunctionAnalysis, fix: InstRef, crash: InstRef, p: InstPtr)
    requires WellFormed(m) && ValidAnalysis(m, fn, a)
    requires LoopPart(m, fn, a, fix, crash).Finished?
    ensures p in LoopPart(m, fn, a, fix, crash).found
            <==> || (a.loopFor(crash.Parent()).Some? && p == Ptr(TerminatorOf(m, crash.Parent())))
                 || (&& Climb(m, fn, a, a.loopFor(crash.Parent()), fix).Some?
                     && var ctx := LoopContext(m, fn, a, Climb(m, fn, a, a.loopFor(crash.Parent()), fix).value, fix, crash);
                        var exits := ExitBlocks(ctx.f, ctx.loop);
                        exists j :: 0 <= j < |exits| && FrontierReached(ctx, exits[j], p))
    ensures p in LoopPart(m, fn, a, fix, crash).found ==>
            || (a.loopFor(crash.Parent()).Some? && p == Ptr(TerminatorOf(m, crash.Parent())))
            || exists k: nat ::
                 var start := a.loopFor(crash.Parent()).value;
                 var chain := Ancestors(m, fn, a, start);
                 && a.loopFor(crash.Parent()).Some?
                 && FirstCoveringAt(m, fn, a, chain, fix, k)
                 && p.Ptr? && p.ref == Front(BlockRef(fn, p.ref.blk))
                 && FrontierBlock(LoopContext(m, fn, a, chain[k], fix, crash), p.ref.blk)
  {
    var start := a.loopFor(crash.Parent());
    match Climb(m, fn, a, start, fix)
    case None =>
    case Some(l) =>
      var ctx := LoopContext(m, fn, a, l, fix, crash);
      var exits := ExitBlocks(ctx.f, ctx.loop);
      LoopWalkMembers(ctx, exits, p);
      if p in LoopPart(m, fn, a, fix, crash).found && p !in LoopTerminator(m, fn, a, crash) {
        WalkExitsInsertsOnlyFrontierFronts(ctx, exits, |ctx.f.blocks|);
        assert start.Some?;
        ClimbStopsAtFirstCoveringAncestor(m, fn, a, start.value, fix);
        var chain := Ancestors(m, fn, a, start.value);
        var k: nat :| FirstCoveringAt(m, fn, a, chain, fix, k) && chain[k] == l;
        assert FrontierBlock(LoopContext(m, fn, a, chain[k], fix, crash), p.ref.blk);
      }
  }

  /** The exit-block loop of processLoop, when it returns, holds exactly the frontier first
      instructions reached from one of the exit blocks. */
  lemma LoopWalkMembers(ctx: WalkContext, exits: seq<nat>, p: InstPtr)
    requires ValidContext(ctx) && forall j :: 0 <= j < |exits| ==> exits[j] < |ctx.f.blocks|
    requires WalkExits(ctx, exits, |ctx.f.blocks|).Finished?
    ensures p in WalkExits(ctx, exits, |ctx.f.blocks|).found
            <==> exists j :: 0 <= j < |exits| && FrontierReached(ctx, exits[j], p)
  {
    WalkExitsFound(ctx, exits, |ctx.f.blocks|, p);
    forall j | 0 <= j < |exits|
      ensures p in WalkFrom(ctx, exits[j], |ctx.f.blocks|).found <==> FrontierReached(ctx, exits[j], p)
    {
      WalkFindsExactlyReachedFrontier(ctx, exits[j], |ctx.f.blocks|, p);
    }
  }

  /** processLoop inserts instructions of the module only, never a null pointer. */
  lemma LoopPartInsertsInstructions(m: IRModule, fn: nat, a: FunctionAnalysis, fix: InstRef, crash: InstRef)
    requires WellFormed(m) && ValidAnalysis(m, fn, a)
    requires LoopPart(m, fn, a, fix, crash).Finished?
    ensures forall p :: p in LoopPart(m, fn, a, fix, crash).found ==> p.Ptr? && ValidInst(m, p.ref)
  {
    match Climb(m, fn, a, a.loopFor(crash.Parent()), fix)
    case None =>
    case Some(l) =>
      var ctx := LoopContext(m, fn, a, l, fix, crash);
      var walk := WalkExits(ctx, ExitBlocks(ctx.f, ctx.loop), |ctx.f.blocks|);
      WalkExitsInsertsOnlyFrontierFronts(ctx, ExitBlocks(ctx.f, ctx.loop), |ctx.f.blocks|);
      forall p | p in walk.found ensures p.Ptr? && ValidInst(m, p.ref) {
        assert FrontierBlock(ctx, p.ref.blk);
      }
  }

  /** processLoop recurses without end exactly when the climb stops at some loop and
      processSucc never returns on one of that loop's exit blocks. */
  lemma LoopPartDivergesIff(m: IRModule, fn: nat, a: FunctionAnalysis, fix: InstRef, crash: InstRef)
    requires WellFormed(m) && ValidAnalysis(m, fn, a)
    ensures LoopPart(m, fn, a, fix, crash) == OutOfFuel
            <==> && Climb(m, fn, a, a.loopFor(crash.Parent()), fix).Some?
                 && var ctx := LoopContext(m, fn, a, Climb(m, fn, a, a.loopFor(crash.Parent()), fix).value, fix, crash);
                    var exits := ExitBlocks(ctx.f, ctx.loop);
                    exists j :: 0 <= j < |exits| && Diverges(ctx, exits[j])
  {
    match Climb(m, fn, a, a.loopFor(crash.Parent()), fix)
    case None =>
    case Some(l) =>
      var ctx := LoopContext(m, fn, a, l, fix, crash);
      var exits := ExitBlocks(ctx.f, ctx.loop);
      WalkExitsOutOfFuel(ctx, exits, |ctx.f.blocks|);
      if LoopPart(m, fn, a, fix, crash) == OutOfFuel {
        var j :| 0 <= j < |exits| && WalkFrom(ctx, exits[j], |ctx.f.blocks|) == OutOfFuel;
        OutOfBlockCountFuelDiverges(ctx, exits[j]);
      }
  }

  /** The DomAll test of one round of the climb: does Fix dominate every out-of-loop
      successor of every exit block of the loop? */
  method ComputeDomAll(f: Function, a: FunctionAnalysis, loop: Loop, fix: InstRef) returns (domAll: bool)
    requires WellFormedFunction(f) && LoopInFunction(f, loop)
    ensures domAll == Covers(f, a, loop, fix)
  {
    var exitBlocks := ExitBlocks(f, loop);
    domAll := true;
    for e := 0 to |exitBlocks|
      invariant domAll <==> forall i :: 0 <= i < e ==> ExitCovered(f, a, loop, fix, exitBlocks[i])
    {
      var covered := ScanExitSuccessors(f, a, loop, fix, exitBlocks[e]);
      if !covered {
        domAll := false;
      }
    }
  }

  /** The inner loop of the DomAll test, over the successors of one exit block: it stops
      at the first one outside the loop that Fix does not dominate. */
  method ScanExitSuccessors(f: Function, a: FunctionAnalysis, loop: Loop, fix: InstRef, eb: nat) returns (covered: bool)
    requires eb < |f.blocks|
    ensures covered == ExitCovered(f, a, loop, fix, eb)
  {
    var succs := f.blocks[eb].succs;
    covered := true;
    for t := 0 to |succs|
      invariant covered <==> forall k :: 0 <= k < t ==> succs[k] in loop.blocks || a.dominatesBlock(fix, succs[k])
    {
      if succs[t] in loop.blocks {
        continue;
      }
      if !a.dominatesBlock(fix, succs[t]) {
        covered := false;
        break;
      }
    }
  }

  /** The last loop of processLoop: processSucc on every exit block, in order. It returns
      false when one of the walks recurses without end. */
  method ProcessExits(ctx: WalkContext, termInsts: FrontierSet) returns (finished: bool)
    requires ValidContext(ctx) && LoopInFunction(ctx.f, ctx.loop)
    modifies termInsts
    ensures finished == WalkExits(ctx, ExitBlocks(ctx.f, ctx.loop), |ctx.f.blocks|).Finished?
    ensures finished ==> termInsts.elems == old(termInsts.elems) + WalkExits(ctx, ExitBlocks(ctx.f, ctx.loop), |ctx.f.blocks|).found
  {
    var exitBlocks := ExitBlocks(ctx.f, ctx.loop);
    for i := 0 to |exitBlocks|
      invariant WalkExits(ctx, exitBlocks[..i], |ctx.f.blocks|).Finished?
      invariant termInsts.elems == old(termInsts.elems) + WalkExits(ctx, exitBlocks[..i], |ctx.f.blocks|).found
    {
      WalkExitsStep(ctx, exitBlocks, i, |ctx.f.blocks|);
      var ok := ProcessSucc(ctx, exitBlocks[i], |ctx.f.blocks|, termInsts);
      if !ok {
        WalkExitsOutOfFuel(ctx, exitBlocks, |ctx.f.blocks|);
        return false;
      }
    }
    assert exitBlocks[..|exitBlocks|] == exitBlocks;
    return true;
  }

  /** processLoop, inserting into the output set in place. It returns false when the walk
      from the exit blocks recurses without end (the source then never returns). */
  method ProcessLoop(m: IRModule, fn: nat, a: FunctionAnalysis, fix: InstRef, crash: InstRef, termInsts: FrontierSet)
    returns (finished: bool)
    requires WellFormed(m) && ValidAnalysis(m, fn, a)
    modifies termInsts
    ensures finished == LoopPart(m, fn, a, fix, crash).Finished?
    ensures finished ==> termInsts.elems == old(termInsts.elems) + LoopPart(m, fn, a, fix, crash).found
  {
    var f := m.functions[fn];
    var crashLoop: Option<nat> := a.loopFor(crash.Parent());
    var fixLoop := a.loopFor(crash.Parent());
    if crashLoop.Some? && crashLoop == fixLoop {
      termInsts.Insert(Ptr(TerminatorOf(m, crash.Parent())));
    }
    ghost var afterTerminator := termInsts.elems;
    assert afterTerminator == old(termInsts.elems) + LoopTerminator(m, fn, a, crash);

    while crashLoop.Some?
      invariant crashLoop.Some? ==> crashLoop.value < |a.loops|
      invariant Climb(m, fn, a, crashLoop, fix) == Climb(m, fn, a, a.loopFor(crash.Parent()), fix)
      invariant termInsts.elems == afterTerminator
      decreases LoopRank(a, crashLoop)
    {
      var loop := a.loops[crashLoop.value];
      var domAll := ComputeDomAll(f, a, loop, fix);
      if domAll {
        break;
      }
      crashLoop := loop.parent;
    }

    if crashLoop.None? {
      return true;
    }
    finished := ProcessExits(LoopContext(m, fn, a, crashLoop.value, fix, crash), termInsts);
  }
}
