/** The read-only results of other analyses that the pass consults for its target
    function: dominator-tree queries, the loop nest and the reachability query. They
    are inputs; nothing here computes them. On top of them: the exit blocks of a loop,
    the "Fix dominates every way out" test and the climb through the loop nest. */
module Analyses {
  import opened Wrappers
  import opened IR

  /** One loop of the loop nest: its blocks (indices in the function, header first),
      its parent loop (an index into the function's loop list) and its nesting depth. */
  datatype Loop = Loop(blocks: seq<nat>, parent: Option<nat>, depth: nat)

  /** DominatorTree, LoopInfo and isPotentiallyReachable for one function.
      `dominates` is DominatorTree::dominates on two instructions, `dominatesBlock`
      the same query from an instruction to a block of this function, `loopFor` is
      LoopInfo::getLoopFor (the innermost loop holding a block, if any). */
  datatype FunctionAnalysis = FunctionAnalysis(
    dominates: (InstRef, InstRef) -> bool,
    dominatesBlock: (InstRef, nat) -> bool,
    loops: seq<Loop>,
    loopFor: BlockRef -> Option<nat>,
    potentiallyReachable: (InstRef, InstRef) -> bool)

  /** The loop nest is a forest: a parent is a loop of the list and is shallower. */
  predicate LoopsWellNested(f: Function, loops: seq<Loop>)
  {
    forall l :: 0 <= l < |loops| ==>
      && (forall j :: 0 <= j < |loops[l].blocks| ==> loops[l].blocks[j] < |f.blocks|)
      && (loops[l].parent.Some? ==>
            loops[l].parent.value < |loops| && loops[loops[l].parent.value].depth < loops[l].depth)
  }

  /** The analysis belongs to function fn: its loops hold blocks of fn only, and
      getLoopFor answers only for blocks of fn, with a loop that holds the block. */
  ghost predicate ValidAnalysis(m: IRModule, fn: nat, a: FunctionAnalysis)
  {
    && fn < |m.functions|
    && WellFormedFunction(m.functions[fn])
    && LoopsWellNested(m.functions[fn], a.loops)
    && forall b: BlockRef :: a.loopFor(b).Some? ==>
         && a.loopFor(b).value < |a.loops|
         && b.fn == fn
         && b.blk in a.loops[a.loopFor(b).value].blocks
  }

  predicate LoopInFunction(f: Function, loop: Loop)
  {
    forall j :: 0 <= j < |loop.blocks| ==> loop.blocks[j] < |f.blocks|
  }

  /** The successors in ss that lie outside the loop, in order. */
  function OutsideLoop(ss: seq<nat>, loop: Loop): (outside: seq<nat>)
    ensures forall s :: s in outside <==> s in ss && s !in loop.blocks
  {
    if ss == [] then []
    else
      OutsideLoop(ss[..|ss| - 1], loop)
      + (if ss[|ss| - 1] in loop.blocks then [] else [ss[|ss| - 1]])
  }

  /** Loop::getExitBlocks over the first n blocks of the loop. */
  function ExitBlocksUpTo(f: Function, loop: Loop, n: nat): (exits: seq<nat>)
    requires WellFormedFunction(f) && LoopInFunction(f, loop) && n <= |loop.blocks|
    ensures forall e :: e in exits ==> e < |f.blocks| && e !in loop.blocks
    ensures forall e :: e in exits
              <==> e !in loop.blocks
                   && exists j :: 0 <= j < n && e in f.blocks[loop.blocks[j]].succs
  {
    if n == 0 then []
    else
      var prev := ExitBlocksUpTo(f, loop, n - 1);
      var b := loop.blocks[n - 1];
      var here := OutsideLoop(f.blocks[b].succs, loop);
      assert forall e :: e in here ==> e < |f.blocks|;
      prev + here
  }

  /** Loop::getExitBlocks: every block outside the loop that a block of the loop branches
      to, once per such edge. (They are the targets of the edges that leave the loop.) */
  function ExitBlocks(f: Function, loop: Loop): (exits: seq<nat>)
    requires WellFormedFunction(f) && LoopInFunction(f, loop)
    ensures forall i :: 0 <= i < |exits| ==> exits[i] < |f.blocks| && exits[i] !in loop.blocks
  {
    var exits := ExitBlocksUpTo(f, loop, |loop.blocks|);
    assert forall i :: 0 <= i < |exits| ==> exits[i] in exits;
    exits
  }

  /** Fix dominates every successor of exit block eb that lies outside the loop. */
  predicate ExitCovered(f: Function, a: FunctionAnalysis, loop: Loop, fix: InstRef, eb: nat)
    requires eb < |f.blocks|
  {
    forall t :: 0 <= t < |f.blocks[eb].succs| ==>
      f.blocks[eb].succs[t] in loop.blocks || a.dominatesBlock(fix, f.blocks[eb].succs[t])
  }

  /** The DomAll test of the climb: Fix dominates every out-of-loop successor of every
      exit block of the loop. */
  predicate Covers(f: Function, a: FunctionAnalysis, loop: Loop, fix: InstRef)
    requires WellFormedFunction(f) && LoopInFunction(f, loop)
  {
    var exits := ExitBlocks(f, loop);
    forall i :: 0 <= i < |exits| ==> ExitCovered(f, a, loop, fix, exits[i])
  }

  /** Covers for loop number l of the analysis. */
  predicate LoopCovers(m: IRModule, fn: nat, a: FunctionAnalysis, l: nat, fix: InstRef)
    requires ValidAnalysis(m, fn, a) && l < |a.loops|
  {
    Covers(m.functions[fn], a, a.loops[l], fix)
  }

  function LoopRank(a: FunctionAnalysis, l: Option<nat>): nat
  {
    if l.Some? && l.value < |a.loops| then a.loops[l.value].depth + 1 else 0
  }

  /** The climb of processLoop: from loop l towards the outermost loop, the first loop
      that Covers, or None when no loop on the way does. */
  function Climb(m: IRModule, fn: nat, a: FunctionAnalysis, l: Option<nat>, fix: InstRef): (c: Option<nat>)
    requires ValidAnalysis(m, fn, a) && (l.Some? ==> l.value < |a.loops|)
    ensures c.Some? ==> c.value < |a.loops|
    decreases LoopRank(a, l)
  {
    match l
    case None => None
    case Some(i) =>
      if LoopCovers(m, fn, a, i, fix) then l
      else Climb(m, fn, a, a.loops[i].parent, fix)
  }

  /** Loop l followed by its parent, its parent's parent, ..., up to an outermost loop. */
  function Ancestors(m: IRModule, fn: nat, a: FunctionAnalysis, l: nat): (chain: seq<nat>)
    requires ValidAnalysis(m, fn, a) && l < |a.loops|
    ensures |chain| > 0 && chain[0] == l
    ensures forall i :: 0 <= i < |chain| ==> chain[i] < |a.loops|
    ensures forall i :: 0 <= i < |chain| - 1 ==> a.loops[chain[i]].parent == Some(chain[i + 1])
    ensures a.loops[chain[|chain| - 1]].parent.None?
    decreases a.loops[l].depth
  {
    match a.loops[l].parent
    case None => [l]
    case Some(p) => [l] + Ancestors(m, fn, a, p)
  }

  /** No loop of the chain covers. */
  predicate NoneCovers(m: IRModule, fn: nat, a: FunctionAnalysis, chain: seq<nat>, fix: InstRef)
    requires ValidAnalysis(m, fn, a) && forall i :: 0 <= i < |chain| ==> chain[i] < |a.loops|
  {
    forall i :: 0 <= i < |chain| ==> !LoopCovers(m, fn, a, chain[i], fix)
  }

  /** Loop k of the chain covers and no loop before it does. */
  predicate FirstCoveringAt(m: IRModule, fn: nat, a: FunctionAnalysis, chain: seq<nat>, fix: InstRef, k: nat)
    requires ValidAnalysis(m, fn, a) && forall i :: 0 <= i < |chain| ==> chain[i] < |a.loops|
  {
    && k < |chain|
    && LoopCovers(m, fn, a, chain[k], fix)
    && forall i :: 0 <= i < k ==> !LoopCovers(m, fn, a, chain[i], fix)
  }

  /** The chain of loop l is l followed by the chain of its parent, if it has one. */
  lemma AncestorsStep(m: IRModule, fn: nat, a: FunctionAnalysis, l: nat)
    requires ValidAnalysis(m, fn, a) && l < |a.loops|
    ensures a.loops[l].parent.None? ==> Ancestors(m, fn, a, l) == [l]
    ensures a.loops[l].parent.Some? ==> Ancestors(m, fn, a, l) == [l] + Ancestors(m, fn, a, a.loops[l].parent.value)
  {
  }

  /** No loop of l's chain covers exactly when l does not and no loop of its parent's chain does. */
  lemma NoneCoversStep(m: IRModule, fn: nat, a: FunctionAnalysis, l: nat, rest: seq<nat>, fix: InstRef)
    requires ValidAnalysis(m, fn, a) && l < |a.loops| && forall i :: 0 <= i < |rest| ==> rest[i] < |a.loops|
    ensures NoneCovers(m, fn, a, [l] + rest, fix)
            <==> !LoopCovers(m, fn, a, l, fix) && NoneCovers(m, fn, a, rest, fix)
  {
    var chain := [l] + rest;
    assert chain[0] == l;
    assert forall i :: 0 <= i < |rest| ==> chain[i + 1] == rest[i];
  }

  /** The climb finds nothing exactly when no loop among l and its ancestors covers. */
  lemma {:induction false} ClimbFailsIffNoAncestorCovers(m: IRModule, fn: nat, a: FunctionAnalysis, l: nat, fix: InstRef)
    requires ValidAnalysis(m, fn, a) && l < |a.loops|
    ensures Climb(m, fn, a, Some(l), fix).None? <==> NoneCovers(m, fn, a, Ancestors(m, fn, a, l), fix)
    decreases a.loops[l].depth
  {
    AncestorsStep(m, fn, a, l);
    match a.loops[l].parent
    case None =>
      NoneCoversStep(m, fn, a, l, [], fix);
      assert [l] + [] == [l];
    case Some(p) =>
      ClimbFailsIffNoAncestorCovers(m, fn, a, p, fix);
      NoneCoversStep(m, fn, a, l, Ancestors(m, fn, a, p), fix);
  }

  /** The first covering loop of l's chain is l when l covers, and otherwise one past the first
      covering loop of its parent's chain. */
  lemma FirstCoveringStep(m: IRModule, fn: nat, a: FunctionAnalysis, l: nat, rest: seq<nat>, fix: InstRef, k: nat)
    requires ValidAnalysis(m, fn, a) && l < |a.loops| && forall i :: 0 <= i < |rest| ==> rest[i] < |a.loops|
    requires !LoopCovers(m, fn, a, l, fix) && FirstCoveringAt(m, fn, a, rest, fix, k)
    ensures FirstCoveringAt(m, fn, a, [l] + rest, fix, k + 1) && ([l] + rest)[k + 1] == rest[k]
  {
    var chain := [l] + rest;
    assert chain[0] == l;
    assert forall i :: 0 <= i < |rest| ==> chain[i + 1] == rest[i];
  }

  /** When the climb stops, it stops at the first covering loop among l and its ancestors. */
  lemma {:induction false} ClimbStopsAtFirstCoveringAncestor(m: IRModule, fn: nat, a: FunctionAnalysis, l: nat, fix: InstRef)
    requires ValidAnalysis(m, fn, a) && l < |a.loops|
    requires Climb(m, fn, a, Some(l), fix).Some?
    ensures exists k: nat :: FirstCoveringAt(m, fn, a, Ancestors(m, fn, a, l), fix, k)
                             && Ancestors(m, fn, a, l)[k] == Climb(m, fn, a, Some(l), fix).value
    decreases a.loops[l].depth
  {
    AncestorsStep(m, fn, a, l);
    var chain := Ancestors(m, fn, a, l);
    if LoopCovers(m, fn, a, l, fix) {
      assert FirstCoveringAt(m, fn, a, chain, fix, 0);
    } else {
      var p := a.loops[l].parent.value;
      ClimbStopsAtFirstCoveringAncestor(m, fn, a, p, fix);
      var rest := Ancestors(m, fn, a, p);
      var k: nat :| FirstCoveringAt(m, fn, a, rest, fix, k) && rest[k] == Climb(m, fn, a, Some(p), fix).value;
      FirstCoveringStep(m, fn, a, l, rest, fix, k);
    }
  }
}
