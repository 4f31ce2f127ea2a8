/** inSameFunc: collect every instruction whose "file:line" key is the fix line and every
    one whose key is the crash line, and pick the target function: the function holding the
    first fix-line instruction, provided it also holds the first crash-line instruction. */
module Resolver {
  import opened Wrappers
  import opened IR

  /** The function of the first instruction of a match list, if any. */
  function FirstFunction(rs: seq<InstRef>): Option<nat>
  {
    if rs == [] then None else Some(rs[0].fn)
  }

  /** The answer of inSameFunc for its two match lists. */
  function TargetOf(fixInsts: seq<InstRef>, crashInsts: seq<InstRef>): Option<nat>
  {
    var fixFunc := FirstFunction(fixInsts);
    var crashFunc := FirstFunction(crashInsts);
    if fixFunc == crashFunc && fixFunc.Some? && crashFunc.Some? then fixFunc else None
  }

  /** Function fn is defined and holds an instruction the selector picks. */
  ghost predicate FunctionMatches(m: IRModule, sel: Selector, fn: nat)
  {
    && fn < |m.functions|
    && !m.functions[fn].isDeclaration
    && exists r: InstRef :: r.fn == fn && ValidInst(m, r) && Selected(sel, InstAt(m, r))
  }

  /** Function fn is the first defined function holding a picked instruction. */
  ghost predicate FirstMatchingFunction(m: IRModule, sel: Selector, fn: nat)
  {
    FunctionMatches(m, sel, fn) && forall g: nat :: g < fn ==> !FunctionMatches(m, sel, g)
  }

  /** A defined function holding a match has all its matches in the selection. */
  lemma MatchSelected(m: IRModule, sel: Selector, g: nat)
    requires FunctionMatches(m, sel, g)
    ensures exists i :: 0 <= i < |Selection(m, sel)| && Selection(m, sel)[i].fn == g
  {
    var r: InstRef :| r.fn == g && ValidInst(m, r) && Selected(sel, InstAt(m, r));
    SelectInModuleSpec(m, sel, |m.functions|);
    assert r in Selection(m, sel);
  }

  /** The first match lies in the first defined function that holds a match; there is no first
      match exactly when no defined function holds one. */
  lemma FirstFunctionOfSelection(m: IRModule, sel: Selector)
    ensures FirstFunction(Selection(m, sel)).None? <==> forall g: nat :: !FunctionMatches(m, sel, g)
    ensures FirstFunction(Selection(m, sel)).Some?
            ==> FirstMatchingFunction(m, sel, FirstFunction(Selection(m, sel)).value)
  {
    var rs := Selection(m, sel);
    forall g: nat | FunctionMatches(m, sel, g) ensures rs != [] && rs[0].fn <= g {
      MatchSelected(m, sel, g);
      var i :| 0 <= i < |rs| && rs[i].fn == g;
      SelectInModuleSpec(m, sel, |m.functions|);
      if i > 0 {
        assert Before(rs[0], rs[i]);
      }
    }
    if rs != [] {
      SelectInModuleSpec(m, sel, |m.functions|);
      assert rs[0] in rs;
      assert FunctionMatches(m, sel, rs[0].fn);
    }
  }

  /** inSameFunc returns fn exactly when fn is both the first defined function holding a
      fix-line instruction and the first holding a crash-line instruction. */
  lemma TargetIsCommonFirstFunction(m: IRModule, fixLine: string, crashLine: string, fn: nat)
    ensures TargetOf(Selection(m, AtLocation(fixLine)), Selection(m, AtLocation(crashLine))) == Some(fn)
            <==> FirstMatchingFunction(m, AtLocation(fixLine), fn)
                 && FirstMatchingFunction(m, AtLocation(crashLine), fn)
  {
    FirstFunctionOfSelection(m, AtLocation(fixLine));
    FirstFunctionOfSelection(m, AtLocation(crashLine));
    var fixFirst := FirstFunction(Selection(m, AtLocation(fixLine)));
    var crashFirst := FirstFunction(Selection(m, AtLocation(crashLine)));
    if FirstMatchingFunction(m, AtLocation(fixLine), fn) && FirstMatchingFunction(m, AtLocation(crashLine), fn) {
      FirstMatchingUnique(m, AtLocation(fixLine), fixFirst.value, fn);
      FirstMatchingUnique(m, AtLocation(crashLine), crashFirst.value, fn);
    }
  }

  lemma FirstMatchingUnique(m: IRModule, sel: Selector, f1: nat, f2: nat)
    requires FirstMatchingFunction(m, sel, f1) && FirstMatchingFunction(m, sel, f2)
    ensures f1 == f2
  {
  }

  /** The instructions of block bi of function fi that a scan collects. */
  function BlockMatches(m: IRModule, sel: Selector, fi: nat, bi: nat, ii: nat): seq<InstRef>
    requires fi < |m.functions| && bi < |m.functions[fi].blocks| && ii <= |m.functions[fi].blocks[bi].insts|
  {
    SelectInBlock(m.functions[fi].blocks[bi], fi, bi, sel, ii)
  }

  /** One more instruction scanned: it joins the matches exactly when it carries the key. */
  lemma BlockMatchesNext(m: IRModule, key: string, fi: nat, bi: nat, ii: nat)
    requires fi < |m.functions| && bi < |m.functions[fi].blocks| && ii < |m.functions[fi].blocks[bi].insts|
    ensures BlockMatches(m, AtLocation(key), fi, bi, ii + 1)
            == BlockMatches(m, AtLocation(key), fi, bi, ii)
               + (if InstKey(m.functions[fi].blocks[bi].insts[ii]) == Some(key) then [InstRef(fi, bi, ii)] else [])
  {
  }

  /** Appending to a match list changes its first function only when the list was empty. */
  lemma FirstFunctionAppend(rs: seq<InstRef>, r: InstRef)
    ensures FirstFunction(rs + [r]) == if rs == [] then Some(r.fn) else FirstFunction(rs)
  {
    if rs != [] {
      assert (rs + [r])[0] == rs[0];
    }
  }

  /** The innermost loop of inSameFunc, over the instructions of block bi of function fi:
      append each fix-line (crash-line) instruction to the fix (crash) list, and record the
      function of the first one. */
  method ScanBlock(m: IRModule, fi: nat, bi: nat, fixLine: string, crashLine: string,
                   fixIn: seq<InstRef>, fixFuncIn: Option<nat>, crashIn: seq<InstRef>, crashFuncIn: Option<nat>)
    returns (fixLineInsts: seq<InstRef>, fixFunc: Option<nat>, crashLineInsts: seq<InstRef>, crashFunc: Option<nat>)
    requires fi < |m.functions| && bi < |m.functions[fi].blocks|
    requires fixFuncIn == FirstFunction(fixIn) && crashFuncIn == FirstFunction(crashIn)
    ensures fixLineInsts == fixIn + BlockMatches(m, AtLocation(fixLine), fi, bi, |m.functions[fi].blocks[bi].insts|)
    ensures crashLineInsts == crashIn + BlockMatches(m, AtLocation(crashLine), fi, bi, |m.functions[fi].blocks[bi].insts|)
    ensures fixFunc == FirstFunction(fixLineInsts) && crashFunc == FirstFunction(crashLineInsts)
  {
    var bb := m.functions[fi].blocks[bi];
    fixLineInsts, fixFunc, crashLineInsts, crashFunc := fixIn, fixFuncIn, crashIn, crashFuncIn;
    for ii := 0 to |bb.insts|
      invariant fixLineInsts == fixIn + BlockMatches(m, AtLocation(fixLine), fi, bi, ii)
      invariant crashLineInsts == crashIn + BlockMatches(m, AtLocation(crashLine), fi, bi, ii)
      invariant fixFunc == FirstFunction(fixLineInsts) && crashFunc == FirstFunction(crashLineInsts)
    {
      BlockMatchesNext(m, fixLine, fi, bi, ii);
      BlockMatchesNext(m, crashLine, fi, bi, ii);
      FirstFunctionAppend(fixLineInsts, InstRef(fi, bi, ii));
      FirstFunctionAppend(crashLineInsts, InstRef(fi, bi, ii));
      ConcatAssoc(fixIn, BlockMatches(m, AtLocation(fixLine), fi, bi, ii), [InstRef(fi, bi, ii)]);
      ConcatAssoc(crashIn, BlockMatches(m, AtLocation(crashLine), fi, bi, ii), [InstRef(fi, bi, ii)]);
      var currLoc := CurrentLocation(bb.insts[ii]);
      if currLoc.None? {
        continue;
      }
      if currLoc.value == fixLine {
        fixLineInsts := fixLineInsts + [InstRef(fi, bi, ii)];
        if fixFunc.None? {
          fixFunc := Some(fi);
        }
      }
      if currLoc.value == crashLine {
        crashLineInsts := crashLineInsts + [InstRef(fi, bi, ii)];
        if crashFunc.None? {
          crashFunc := Some(fi);
        }
      }
    }
  }

  /** One more block scanned: its matches follow those of the blocks before it. */
  lemma SelectInFunctionNext(m: IRModule, key: string, fi: nat, bi: nat)
    requires fi < |m.functions| && bi < |m.functions[fi].blocks|
    ensures SelectInFunction(m.functions[fi], fi, AtLocation(key), bi + 1)
            == SelectInFunction(m.functions[fi], fi, AtLocation(key), bi)
               + BlockMatches(m, AtLocation(key), fi, bi, |m.functions[fi].blocks[bi].insts|)
  {
  }

  /** The loop of inSameFunc over the blocks of defined function fi. */
  method ScanFunction(m: IRModule, fi: nat, fixLine: string, crashLine: string,
                      fixIn: seq<InstRef>, fixFuncIn: Option<nat>, crashIn: seq<InstRef>, crashFuncIn: Option<nat>)
    returns (fixLineInsts: seq<InstRef>, fixFunc: Option<nat>, crashLineInsts: seq<InstRef>, crashFunc: Option<nat>)
    requires fi < |m.functions|
    requires fixFuncIn == FirstFunction(fixIn) && crashFuncIn == FirstFunction(crashIn)
    ensures fixLineInsts == fixIn + SelectInFunction(m.functions[fi], fi, AtLocation(fixLine), |m.functions[fi].blocks|)
    ensures crashLineInsts == crashIn + SelectInFunction(m.functions[fi], fi, AtLocation(crashLine), |m.functions[fi].blocks|)
    ensures fixFunc == FirstFunction(fixLineInsts) && crashFunc == FirstFunction(crashLineInsts)
  {
    var f := m.functions[fi];
    fixLineInsts, fixFunc, crashLineInsts, crashFunc := fixIn, fixFuncIn, crashIn, crashFuncIn;
    for bi := 0 to |f.blocks|
      invariant fixLineInsts == fixIn + SelectInFunction(f, fi, AtLocation(fixLine), bi)
      invariant crashLineInsts == crashIn + SelectInFunction(f, fi, AtLocation(crashLine), bi)
      invariant fixFunc == FirstFunction(fixLineInsts) && crashFunc == FirstFunction(crashLineInsts)
    {
      fixLineInsts, fixFunc, crashLineInsts, crashFunc :=
        ScanBlock(m, fi, bi, fixLine, crashLine, fixLineInsts, fixFunc, crashLineInsts, crashFunc);
      SelectInFunctionNext(m, fixLine, fi, bi);
      SelectInFunctionNext(m, crashLine, fi, bi);
      ConcatAssoc(fixIn, SelectInFunction(f, fi, AtLocation(fixLine), bi),
                  BlockMatches(m, AtLocation(fixLine), fi, bi, |f.blocks[bi].insts|));
      ConcatAssoc(crashIn, SelectInFunction(f, fi, AtLocation(crashLine), bi),
                  BlockMatches(m, AtLocation(crashLine), fi, bi, |f.blocks[bi].insts|));
    }
  }

  lemma ConcatAssoc(a: seq<InstRef>, b: seq<InstRef>, c: seq<InstRef>)
    ensures a + b + c == a + (b + c)
  {
  }

  /** inSameFunc: the two match lists, in module/block/instruction order, and the target. */
  method InSameFunc(m: IRModule, fixLine: string, crashLine: string)
    returns (target: Option<nat>, fixLineInsts: seq<InstRef>, crashLineInsts: seq<InstRef>)
    ensures fixLineInsts == Selection(m, AtLocation(fixLine))
    ensures crashLineInsts == Selection(m, AtLocation(crashLine))
    ensures target == TargetOf(fixLineInsts, crashLineInsts)
  {
    var fixFunc: Option<nat> := None;
    var crashFunc: Option<nat> := None;
    fixLineInsts := [];
    crashLineInsts := [];
    for fi := 0 to |m.functions|
      invariant fixLineInsts == SelectInModule(m, AtLocation(fixLine), fi) && fixFunc == FirstFunction(fixLineInsts)
      invariant crashLineInsts == SelectInModule(m, AtLocation(crashLine), fi) && crashFunc == FirstFunction(crashLineInsts)
    {
      SelectInModuleNext(m, AtLocation(fixLine), fi);
      SelectInModuleNext(m, AtLocation(crashLine), fi);
      if m.functions[fi].isDeclaration {
        continue;
      }
      fixLineInsts, fixFunc, crashLineInsts, crashFunc :=
        ScanFunction(m, fi, fixLine, crashLine, fixLineInsts, fixFunc, crashLineInsts, crashFunc);
    }
    if fixFunc == crashFunc && fixFunc.Some? && crashFunc.Some? {
      target := fixFunc;
    } else {
      target := None;
    }
  }
}
