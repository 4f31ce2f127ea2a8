/** processNonLoop: once Fix dominates Crash, add the function's only `ret` (when it has
    exactly one) and, when neither Fix nor Crash is in a loop, the instruction after the
    first crash-line instruction of Crash's block and that block's terminator. */
module NonLoopFrontier {
  import opened Wrappers
  import opened DebugInfo
  import opened IR
  import opened Analyses
  import opened Aggregator

  /** The index of the first of the first n instructions of b that carries key, if any. */
  function FirstKeyed(b: BasicBlock, key: string, n: nat): (r: Option<nat>)
    requires n <= |b.insts|
    ensures r.Some? ==> && r.value < n && InstKey(b.insts[r.value]) == Some(key)
                        && forall j :: 0 <= j < r.value ==> InstKey(b.insts[j]) != Some(key)
    ensures r.None? ==> forall j :: 0 <= j < n ==> InstKey(b.insts[j]) != Some(key)
  {
    if n == 0 then None
    else
      match FirstKeyed(b, key, n - 1)
      case Some(i) => Some(i)
      case None => if InstKey(b.insts[n - 1]) == Some(key) then Some(n - 1) else None
  }

  lemma {:induction false} FirstKeyedNext(b: BasicBlock, key: string, k: nat)
    requires k < |b.insts| && FirstKeyed(b, key, k) == None
    ensures InstKey(b.insts[k]) != Some(key) ==> FirstKeyed(b, key, k + 1) == None
    ensures InstKey(b.insts[k]) == Some(key) ==> FirstKeyed(b, key, |b.insts|) == Some(k)
  {
    if InstKey(b.insts[k]) == Some(key) {
      var r := FirstKeyed(b, key, |b.insts|);
      assert r.Some?;
      assert r.value <= k;
    }
  }

  /** The `ret` instructions of function fn, in block/instruction order. */
  function RetsOf(m: IRModule, fn: nat): seq<InstRef>
    requires fn < |m.functions|
  {
    SelectInFunction(m.functions[fn], fn, Returns, |m.functions[fn].blocks|)
  }

  function LastOf(rs: seq<InstRef>): Option<InstRef>
  {
    if rs == [] then None else Some(rs[|rs| - 1])
  }

  /** The `ret` added when the function has exactly one. */
  function SingleRet(m: IRModule, fn: nat): set<InstPtr>
    requires fn < |m.functions|
  {
    var rets := RetsOf(m, fn);
    if |rets| == 1 then {Ptr(rets[0])} else {}
  }

  /** The instruction after the first instruction of Crash's block that carries the crash
      line (null when that instruction ends the block), if the block has one. */
  function AfterCrashLine(m: IRModule, crash: InstRef, crashLine: string): set<InstPtr>
    requires ValidBlock(m, crash.Parent())
  {
    var b := BlockAt(m, crash.Parent());
    match FirstKeyed(b, crashLine, |b.insts|)
    case Some(i) => {NextNode(m, InstRef(crash.fn, crash.blk, i))}
    case None => {}
  }

  /** The terminator of Crash's block, when Fix dominates it. */
  function CrashBlockTerminator(m: IRModule, a: FunctionAnalysis, fix: InstRef, crash: InstRef): set<InstPtr>
    requires WellFormed(m) && ValidBlock(m, crash.Parent())
  {
    var t := TerminatorOf(m, crash.Parent());
    if a.dominates(fix, t) then {Ptr(t)} else {}
  }

  /** What processNonLoop adds for target function fn. */
  function NonLoopPart(m: IRModule, fn: nat, a: FunctionAnalysis, fix: InstRef, crash: InstRef, crashLine: string): set<InstPtr>
    requires WellFormed(m) && fn < |m.functions| && ValidBlock(m, crash.Parent())
  {
    if !a.dominates(fix, crash) then {}
    else
      SingleRet(m, fn)
      + if a.loopFor(crash.Parent()).None? && a.loopFor(fix.Parent()).None?
        then AfterCrashLine(m, crash, crashLine) + CrashBlockTerminator(m, a, fix, crash)
        else {}
  }

  predicate IsRetOf(m: IRModule, fn: nat, r: InstRef)
  {
    r.fn == fn && ValidInst(m, r) && InstAt(m, r).opcode == Ret
  }

  /** r is the one and only `ret` of function fn. */
  ghost predicate OnlyRetOf(m: IRModule, fn: nat, r: InstRef)
  {
    IsRetOf(m, fn, r) && forall r' :: IsRetOf(m, fn, r') ==> r' == r
  }

  /** Instruction i of block cb is the first one that carries the crash line. */
  predicate FirstCrashLineAt(m: IRModule, cb: BlockRef, crashLine: string, i: nat)
    requires ValidBlock(m, cb)
  {
    && i < |BlockAt(m, cb).insts|
    && InstKey(BlockAt(m, cb).insts[i]) == Some(crashLine)
    && forall j :: 0 <= j < i ==> InstKey(BlockAt(m, cb).insts[j]) != Some(crashLine)
  }

  /** The `ret` part adds p exactly when p is the only `ret` of the function. */
  lemma SingleRetIffOnlyRet(m: IRModule, fn: nat, p: InstPtr)
    requires fn < |m.functions|
    ensures p in SingleRet(m, fn) <==> exists r :: OnlyRetOf(m, fn, r) && p == Ptr(r)
  {
    var f := m.functions[fn];
    var rets := RetsOf(m, fn);
    SelectInFunctionSpec(f, fn, Returns, |f.blocks|);
    assert forall r :: r in rets <==> IsRetOf(m, fn, r) by {
      forall r ensures r in rets <==> IsRetOf(m, fn, r) {
        if r.fn == fn && ValidInst(m, r) {
          assert InstAt(m, r) == f.blocks[r.blk].insts[r.idx];
        }
      }
    }
    if p in SingleRet(m, fn) {
      assert rets[0] in rets;
      assert OnlyRetOf(m, fn, rets[0]);
    }
    if exists r :: OnlyRetOf(m, fn, r) && p == Ptr(r) {
      var r :| OnlyRetOf(m, fn, r) && p == Ptr(r);
      assert r in rets;
      InProgramOrderDistinct(rets);
      assert (set x | x in rets) == {r};
    }
  }

  /** What the scan of a block finds is its first crash-line instruction ... */
  lemma {:induction false} FirstKeyedFindsFirstCrashLine(m: IRModule, cb: BlockRef, crashLine: string, i: nat)
    requires ValidBlock(m, cb)
    requires FirstKeyed(BlockAt(m, cb), crashLine, |BlockAt(m, cb).insts|) == Some(i)
    ensures FirstCrashLineAt(m, cb, crashLine, i)
  {
  }

  /** ... and its first crash-line instruction is what the scan finds. */
  lemma {:induction false} FirstCrashLineIsFound(m: IRModule, cb: BlockRef, crashLine: string, i: nat)
    requires ValidBlock(m, cb)
    requires FirstCrashLineAt(m, cb, crashLine, i)
    ensures FirstKeyed(BlockAt(m, cb), crashLine, |BlockAt(m, cb).insts|) == Some(i)
  {
    var b := BlockAt(m, cb);
    var r := FirstKeyed(b, crashLine, |b.insts|);
    assert InstKey(b.insts[i]) == Some(crashLine);
    assert r.Some?;
    assert r.value <= i;
  }

  /** The instruction-after-the-crash-line part adds p exactly when p follows the first
      instruction of Crash's block that carries the crash line. */
  lemma AfterCrashLineIff(m: IRModule, crash: InstRef, crashLine: string, p: InstPtr)
    requires ValidBlock(m, crash.Parent())
    ensures p in AfterCrashLine(m, crash, crashLine)
            <==> exists i: nat :: FirstCrashLineAt(m, crash.Parent(), crashLine, i)
                                  && p == NextNode(m, InstRef(crash.fn, crash.blk, i))
  {
    var b := BlockAt(m, crash.Parent());
    var first := FirstKeyed(b, crashLine, |b.insts|);
    if first.Some? {
      FirstKeyedFindsFirstCrashLine(m, crash.Parent(), crashLine, first.value);
    }
    if exists i: nat :: FirstCrashLineAt(m, crash.Parent(), crashLine, i)
                        && p == NextNode(m, InstRef(crash.fn, crash.blk, i)) {
      var i: nat :| FirstCrashLineAt(m, crash.Parent(), crashLine, i)
                    && p == NextNode(m, InstRef(crash.fn, crash.blk, i));
      FirstCrashLineIsFound(m, crash.Parent(), crashLine, i);
    }
  }

  /** Everything processNonLoop adds, described without the scan: it adds nothing unless Fix
      dominates Crash, and then exactly the function's only `ret` (if it has exactly one) and,
      when neither Fix's nor Crash's block is in a loop, the instruction after the first
      crash-line instruction of Crash's block and that block's terminator if Fix dominates it. */
  lemma NonLoopPartMembers(m: IRModule, fn: nat, a: FunctionAnalysis, fix: InstRef, crash: InstRef, crashLine: string, p: InstPtr)
    requires WellFormed(m) && fn < |m.functions| && ValidBlock(m, crash.Parent())
    ensures p in NonLoopPart(m, fn, a, fix, crash, crashLine)
            <==> a.dominates(fix, crash)
                 && ((exists r :: OnlyRetOf(m, fn, r) && p == Ptr(r))
                     || (a.loopFor(crash.Parent()).None? && a.loopFor(fix.Parent()).None?
                         && ((exists i: nat :: FirstCrashLineAt(m, crash.Parent(), crashLine, i)
                                               && p == NextNode(m, InstRef(crash.fn, crash.blk, i)))
                             || (p == Ptr(TerminatorOf(m, crash.Parent()))
                                 && a.dominates(fix, TerminatorOf(m, crash.Parent()))))))
  {
    SingleRetIffOnlyRet(m, fn, p);
    AfterCrashLineIff(m, crash, crashLine, p);
  }

  /** When Crash carries the crash line (as every instruction the resolver collects for it
      does), neither block is in a loop and Fix dominates Crash, the instruction after the
      first crash-line instruction of Crash's block is added. That instruction is at most one
      past Crash, and it is null only when Crash ends its block. */
  lemma CrashLineSuccessorAdded(m: IRModule, fn: nat, a: FunctionAnalysis, fix: InstRef, crash: InstRef, crashLine: string)
    requires WellFormed(m) && fn < |m.functions| && ValidInst(m, crash)
    requires InstKey(InstAt(m, crash)) == Some(crashLine)
    requires a.dominates(fix, crash) && a.loopFor(crash.Parent()).None? && a.loopFor(fix.Parent()).None?
    ensures exists i: nat :: && i <= crash.idx
                             && FirstCrashLineAt(m, crash.Parent(), crashLine, i)
                             && NextNode(m, InstRef(crash.fn, crash.blk, i)) in NonLoopPart(m, fn, a, fix, crash, crashLine)
    ensures Null in NonLoopPart(m, fn, a, fix, crash, crashLine)
            ==> crash.idx + 1 == |BlockAt(m, crash.Parent()).insts|
  {
    var b := BlockAt(m, crash.Parent());
    var first := FirstKeyed(b, crashLine, |b.insts|);
    assert b.insts[crash.idx] == InstAt(m, crash);
    var i := first.value;
    assert i <= crash.idx;
    assert FirstCrashLineAt(m, crash.Parent(), crashLine, i);
    var rets := RetsOf(m, fn);
    if Null in NonLoopPart(m, fn, a, fix, crash, crashLine) {
      assert Null !in SingleRet(m, fn);
      assert Null !in CrashBlockTerminator(m, a, fix, crash);
      assert NextNode(m, InstRef(crash.fn, crash.blk, i)) == Null;
    }
  }

  /** The counting loop of processNonLoop: the number of `ret` instructions of function fn
      and the last one seen. */
  method CountRets(m: IRModule, fn: nat) returns (retNum: int, lastRet: Option<InstRef>)
    requires fn < |m.functions|
    ensures retNum == |RetsOf(m, fn)| && lastRet == LastOf(RetsOf(m, fn))
  {
    var f := m.functions[fn];
    retNum := 0;
    lastRet := None;
    for bi := 0 to |f.blocks|
      invariant retNum == |SelectInFunction(f, fn, Returns, bi)|
      invariant lastRet == LastOf(SelectInFunction(f, fn, Returns, bi))
    {
      var bb := f.blocks[bi];
      for ii := 0 to |bb.insts|
        invariant retNum == |SelectInFunction(f, fn, Returns, bi) + SelectInBlock(bb, fn, bi, Returns, ii)|
        invariant lastRet == LastOf(SelectInFunction(f, fn, Returns, bi) + SelectInBlock(bb, fn, bi, Returns, ii))
      {
        if bb.insts[ii].opcode == Ret {
          retNum := retNum + 1;
          lastRet := Some(InstRef(fn, bi, ii));
        }
      }
    }
  }

  /** The scan of Crash's block: insert the instruction after the first one that carries the
      crash line, then stop. */
  method InsertAfterCrashLine(m: IRModule, crash: InstRef, crashLine: string, termInsts: FrontierSet)
    requires ValidBlock(m, crash.Parent())
    modifies termInsts
    ensures termInsts.elems == old(termInsts.elems) + AfterCrashLine(m, crash, crashLine)
  {
    var b := BlockAt(m, crash.Parent());
    for k := 0 to |b.insts|
      invariant FirstKeyed(b, crashLine, k) == None
      invariant termInsts.elems == old(termInsts.elems)
    {
      var inst := b.insts[k];
      FirstKeyedNext(b, crashLine, k);
      var currLoc := CurrentLocation(inst);
      if currLoc.None? {
        continue;
      }
      if currLoc.value == crashLine {
        termInsts.Insert(NextNode(m, InstRef(crash.fn, crash.blk, k)));
        return;
      }
    }
  }

  /** The `ret` step of processNonLoop: count the `ret` instructions and insert the last one
      when there is exactly one. */
  method InsertSingleRet(m: IRModule, fn: nat, termInsts: FrontierSet)
    requires fn < |m.functions|
    modifies termInsts
    ensures termInsts.elems == old(termInsts.elems) + SingleRet(m, fn)
  {
    var retNum, lastRet := CountRets(m, fn);
    if retNum == 1 {
      termInsts.Insert(Ptr(lastRet.value));
    }
  }

  /** The crash-block step of processNonLoop, run when neither block is in a loop: the
      instruction after the first crash-line instruction, then the block's terminator when Fix
      dominates it. */
  method InsertCrashBlockFrontier(m: IRModule, a: FunctionAnalysis, fix: InstRef, crash: InstRef,
                                  termInsts: FrontierSet, crashLine: string)
    requires WellFormed(m) && ValidBlock(m, crash.Parent())
    modifies termInsts
    ensures termInsts.elems == old(termInsts.elems) + (AfterCrashLine(m, crash, crashLine) + CrashBlockTerminator(m, a, fix, crash))
  {
    InsertAfterCrashLine(m, crash, crashLine, termInsts);
    var bbTerm := TerminatorOf(m, crash.Parent());
    if a.dominates(fix, bbTerm) {
      termInsts.Insert(Ptr(bbTerm));
    }
  }

  /** processNonLoop, inserting into the output set in place. */
  method ProcessNonLoop(m: IRModule, fn: nat, a: FunctionAnalysis, fix: InstRef, crash: InstRef,
                        termInsts: FrontierSet, crashLine: string)
    requires WellFormed(m) && fn < |m.functions| && ValidBlock(m, crash.Parent())
    modifies termInsts
    ensures termInsts.elems == old(termInsts.elems) + NonLoopPart(m, fn, a, fix, crash, crashLine)
  {
    if !a.dominates(fix, crash) {
      return;
    }

    InsertSingleRet(m, fn, termInsts);

    var crashLoop := a.loopFor(crash.Parent());
    var fixLoop := a.loopFor(fix.Parent());
    if crashLoop.None? && fixLoop.None? {
      InsertCrashBlockFrontier(m, a, fix, crash, termInsts, crashLine);
    }
  }
}
