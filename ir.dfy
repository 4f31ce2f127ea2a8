/** The slice of the compiled program the pass reads: functions made of basic blocks,
    blocks made of instructions, and the optional debug location of each instruction.
    Instructions are named by their position in the module, so that an instruction of
    one function can be told apart from one of another. */
module IR {
  import opened Wrappers
  import opened DebugInfo

  /** Only `ret` is distinguished by the pass; every other opcode is alike to it. */
  datatype Opcode = Ret | Br | OtherOpcode

  datatype DebugLoc = DebugLoc(line: nat, scope: Option<Scope>)

  datatype Instruction = Instruction(opcode: Opcode, debugLoc: Option<DebugLoc>)

  /** A basic block: its instructions (the last one is the terminator) and the
      indices, within the same function, of the blocks its terminator branches to. */
  datatype BasicBlock = BasicBlock(insts: seq<Instruction>, succs: seq<nat>)

  datatype Function = Function(isDeclaration: bool, blocks: seq<BasicBlock>)

  datatype IRModule = IRModule(functions: seq<Function>)

  datatype BlockRef = BlockRef(fn: nat, blk: nat)

  /** Instruction `idx` of block `blk` of function `fn`. */
  datatype InstRef = InstRef(fn: nat, blk: nat, idx: nat)
  {
    /** Instruction::getParent */
    function Parent(): BlockRef
    {
      BlockRef(fn, blk)
    }
  }

  /** An element of the pass's output set: an instruction pointer, which may be null. */
  datatype InstPtr = Null | Ptr(ref: InstRef)

  /** Every block ends in a terminator and branches only to blocks of its own function. */
  predicate WellFormedFunction(f: Function)
  {
    forall blk :: 0 <= blk < |f.blocks| ==>
      && |f.blocks[blk].insts| > 0
      && forall j :: 0 <= j < |f.blocks[blk].succs| ==> f.blocks[blk].succs[j] < |f.blocks|
  }

  predicate WellFormed(m: IRModule)
  {
    forall fn :: 0 <= fn < |m.functions| ==> WellFormedFunction(m.functions[fn])
  }

  predicate ValidBlock(m: IRModule, b: BlockRef)
  {
    b.fn < |m.functions| && b.blk < |m.functions[b.fn].blocks|
  }

  function BlockAt(m: IRModule, b: BlockRef): BasicBlock
    requires ValidBlock(m, b)
  {
    m.functions[b.fn].blocks[b.blk]
  }

  predicate ValidInst(m: IRModule, r: InstRef)
  {
    ValidBlock(m, r.Parent()) && r.idx < |BlockAt(m, r.Parent()).insts|
  }

  function InstAt(m: IRModule, r: InstRef): Instruction
    requires ValidInst(m, r)
  {
    BlockAt(m, r.Parent()).insts[r.idx]
  }

  /** BasicBlock::front */
  function Front(b: BlockRef): InstRef
  {
    InstRef(b.fn, b.blk, 0)
  }

  /** BasicBlock::getTerminator: the last instruction of the block. */
  function TerminatorOf(m: IRModule, b: BlockRef): (t: InstRef)
    requires WellFormed(m) && ValidBlock(m, b)
    ensures ValidInst(m, t) && t.Parent() == b && t.idx + 1 == |BlockAt(m, b).insts|
  {
    InstRef(b.fn, b.blk, |BlockAt(m, b).insts| - 1)
  }

  /** Instruction::getNextNode: the next instruction of the block, null after the last one. */
  function NextNode(m: IRModule, r: InstRef): (next: InstPtr)
    requires ValidInst(m, r)
    ensures next == Null <==> r.idx + 1 == |BlockAt(m, r.Parent()).insts|
    ensures next.Ptr? ==> ValidInst(m, next.ref) && next.ref.Parent() == r.Parent() && next.ref.idx == r.idx + 1
  {
    if r.idx + 1 < |BlockAt(m, r.Parent()).insts| then Ptr(InstRef(r.fn, r.blk, r.idx + 1)) else Null
  }

  /** The "file:line" string the pass builds for an instruction, or None when it skips the
      instruction: no debug location, no scope, no enclosing subprogram, or an empty file name. */
  function InstKey(inst: Instruction): Option<string>
  {
    match inst.debugLoc
    case None => None
    case Some(loc) =>
      if loc.scope.None? then None
      else
        match GetSubprogramScope(loc.scope)
        case None => None
        case Some(sp) =>
          if sp.fileName == "" then None else Some(LocationKey(sp.fileName, loc.line))
  }

  /** The cascade that inSameFunc and processNonLoop both run on each instruction, as the
      source writes it: skip it (None) when a piece of its debug information is missing, else
      build its key. The contract states the outcome in terms of the debug information, and
      that it is InstKey, the form the specifications of the scans use. */
  method CurrentLocation(inst: Instruction) returns (currLoc: Option<string>)
    ensures currLoc.Some? <==> && inst.debugLoc.Some?
                               && GetSubprogramScope(inst.debugLoc.value.scope).Some?
                               && GetSubprogramScope(inst.debugLoc.value.scope).value.fileName != ""
    ensures currLoc.Some? ==> currLoc.value == LocationKey(GetSubprogramScope(inst.debugLoc.value.scope).value.fileName,
                                                           inst.debugLoc.value.line)
    ensures currLoc == InstKey(inst)
  {
    if inst.debugLoc.None? {
      return None;
    }
    var loc := inst.debugLoc.value;
    if loc.scope.None? {
      return None;
    }
    var dis := GetSubprogramScope(loc.scope);
    if dis.None? {
      return None;
    }
    var fileName := dis.value.fileName;
    if fileName == "" {
      return None;
    }
    var line := loc.line;
    return Some(LocationKey(fileName, line));
  }

  /** An instruction carries the key of (fileName, line) exactly when it has a debug location
      on that line whose subprogram has a non-empty file with the same last name. */
  lemma InstKeyMatches(inst: Instruction, fileName: string, line: nat)
    ensures InstKey(inst) == Some(LocationKey(fileName, line))
            <==> && inst.debugLoc.Some?
                 && inst.debugLoc.value.line == line
                 && GetSubprogramScope(inst.debugLoc.value.scope).Some?
                 && GetSubprogramScope(inst.debugLoc.value.scope).value.fileName != ""
                 && FileLastName(GetSubprogramScope(inst.debugLoc.value.scope).value.fileName)
                    == FileLastName(fileName)
  {
    if inst.debugLoc.Some? {
      var loc := inst.debugLoc.value;
      match GetSubprogramScope(loc.scope)
      case Some(sp) =>
        LocationKeyEquality(sp.fileName, loc.line, fileName, line);
      case None =>
    }
  }

  /** Which instructions a scan over the program collects. */
  datatype Selector = Returns | AtLocation(key: string)

  predicate Selected(sel: Selector, inst: Instruction)
  {
    match sel
    case Returns => inst.opcode == Ret
    case AtLocation(key) => InstKey(inst) == Some(key)
  }

  /** The selected instructions among the first n of block blk of function fn, in order. */
  function SelectInBlock(b: BasicBlock, fn: nat, blk: nat, sel: Selector, n: nat): seq<InstRef>
    requires n <= |b.insts|
  {
    if n == 0 then []
    else
      SelectInBlock(b, fn, blk, sel, n - 1)
      + (if Selected(sel, b.insts[n - 1]) then [InstRef(fn, blk, n - 1)] else [])
  }

  /** The selected instructions of the first n blocks of function fn, in order. */
  function SelectInFunction(f: Function, fn: nat, sel: Selector, n: nat): seq<InstRef>
    requires n <= |f.blocks|
  {
    if n == 0 then []
    else
      SelectInFunction(f, fn, sel, n - 1)
      + SelectInBlock(f.blocks[n - 1], fn, n - 1, sel, |f.blocks[n - 1].insts|)
  }

  /** What the scan of function fn contributes: nothing for a declaration, otherwise the
      selected instructions of all its blocks. */
  function FunctionSelection(m: IRModule, sel: Selector, fn: nat): seq<InstRef>
    requires fn < |m.functions|
  {
    if m.functions[fn].isDeclaration then []
    else SelectInFunction(m.functions[fn], fn, sel, |m.functions[fn].blocks|)
  }

  /** The selected instructions of the first n functions that are not declarations, in order. */
  function SelectInModule(m: IRModule, sel: Selector, n: nat): seq<InstRef>
    requires n <= |m.functions|
  {
    if n == 0 then [] else SelectInModule(m, sel, n - 1) + FunctionSelection(m, sel, n - 1)
  }

  /** Every selected instruction of the whole module, in module/block/instruction order. */
  function Selection(m: IRModule, sel: Selector): seq<InstRef>
  {
    SelectInModule(m, sel, |m.functions|)
  }

  /** Strict module/block/instruction order. */
  predicate Before(r1: InstRef, r2: InstRef)
  {
    || r1.fn < r2.fn
    || (r1.fn == r2.fn && r1.blk < r2.blk)
    || (r1.fn == r2.fn && r1.blk == r2.blk && r1.idx < r2.idx)
  }

  predicate InProgramOrder(rs: seq<InstRef>)
  {
    forall i, j :: 0 <= i < j < |rs| ==> Before(rs[i], rs[j])
  }

  /** r is collected from the first n instructions of the block exactly when it names one of
      them and that instruction is selected. */
  lemma {:induction false} SelectInBlockMember(b: BasicBlock, fn: nat, blk: nat, sel: Selector, n: nat, r: InstRef)
    requires n <= |b.insts|
    ensures r in SelectInBlock(b, fn, blk, sel, n)
            <==> r.fn == fn && r.blk == blk && r.idx < n && Selected(sel, b.insts[r.idx])
  {
    hide Selected;
    if n > 0 {
      SelectInBlockMember(b, fn, blk, sel, n - 1, r);
    }
  }

  lemma {:induction false} SelectInBlockOrdered(b: BasicBlock, fn: nat, blk: nat, sel: Selector, n: nat)
    requires n <= |b.insts|
    ensures InProgramOrder(SelectInBlock(b, fn, blk, sel, n))
  {
    hide Selected;
    if n > 0 {
      var prev := SelectInBlock(b, fn, blk, sel, n - 1);
      var last := if Selected(sel, b.insts[n - 1]) then [InstRef(fn, blk, n - 1)] else [];
      SelectInBlockOrdered(b, fn, blk, sel, n - 1);
      forall i, j | 0 <= i < |prev| && 0 <= j < |last| ensures Before(prev[i], last[j]) {
        SelectInBlockMember(b, fn, blk, sel, n - 1, prev[i]);
      }
      ConcatInProgramOrder(prev, last);
    }
  }

  lemma SelectInBlockSpec(b: BasicBlock, fn: nat, blk: nat, sel: Selector, n: nat)
    requires n <= |b.insts|
    ensures forall r :: r in SelectInBlock(b, fn, blk, sel, n)
              <==> r.fn == fn && r.blk == blk && r.idx < n && Selected(sel, b.insts[r.idx])
    ensures InProgramOrder(SelectInBlock(b, fn, blk, sel, n))
  {
    forall r ensures r in SelectInBlock(b, fn, blk, sel, n)
                     <==> r.fn == fn && r.blk == blk && r.idx < n && Selected(sel, b.insts[r.idx]) {
      SelectInBlockMember(b, fn, blk, sel, n, r);
    }
    SelectInBlockOrdered(b, fn, blk, sel, n);
  }

  /** r is collected from the first n blocks of the function exactly when it names an
      instruction of one of them and that instruction is selected. */
  lemma {:induction false} SelectInFunctionMember(f: Function, fn: nat, sel: Selector, n: nat, r: InstRef)
    requires n <= |f.blocks|
    ensures r in SelectInFunction(f, fn, sel, n)
            <==> && r.fn == fn && r.blk < n && r.idx < |f.blocks[r.blk].insts|
                 && Selected(sel, f.blocks[r.blk].insts[r.idx])
  {
    hide SelectInBlock;
    if n > 0 {
      SelectInFunctionMember(f, fn, sel, n - 1, r);
      SelectInBlockMember(f.blocks[n - 1], fn, n - 1, sel, |f.blocks[n - 1].insts|, r);
    }
  }

  lemma {:induction false} SelectInFunctionOrdered(f: Function, fn: nat, sel: Selector, n: nat)
    requires n <= |f.blocks|
    ensures InProgramOrder(SelectInFunction(f, fn, sel, n))
  {
    hide SelectInBlock;
    if n > 0 {
      var prev := SelectInFunction(f, fn, sel, n - 1);
      var last := SelectInBlock(f.blocks[n - 1], fn, n - 1, sel, |f.blocks[n - 1].insts|);
      SelectInFunctionOrdered(f, fn, sel, n - 1);
      SelectInBlockOrdered(f.blocks[n - 1], fn, n - 1, sel, |f.blocks[n - 1].insts|);
      forall i, j | 0 <= i < |prev| && 0 <= j < |last| ensures Before(prev[i], last[j]) {
        SelectInFunctionMember(f, fn, sel, n - 1, prev[i]);
        SelectInBlockMember(f.blocks[n - 1], fn, n - 1, sel, |f.blocks[n - 1].insts|, last[j]);
      }
      ConcatInProgramOrder(prev, last);
    }
  }

  lemma SelectInFunctionSpec(f: Function, fn: nat, sel: Selector, n: nat)
    requires n <= |f.blocks|
    ensures forall r :: r in SelectInFunction(f, fn, sel, n)
              <==> && r.fn == fn && r.blk < n && r.idx < |f.blocks[r.blk].insts|
                   && Selected(sel, f.blocks[r.blk].insts[r.idx])
    ensures InProgramOrder(SelectInFunction(f, fn, sel, n))
  {
    forall r ensures r in SelectInFunction(f, fn, sel, n)
                     <==> && r.fn == fn && r.blk < n && r.idx < |f.blocks[r.blk].insts|
                          && Selected(sel, f.blocks[r.blk].insts[r.idx]) {
      SelectInFunctionMember(f, fn, sel, n, r);
    }
    SelectInFunctionOrdered(f, fn, sel, n);
  }

  /** The first element of a program-ordered sequence comes before every other element, and
      the last element after every other. */
  lemma InProgramOrderEnds(rs: seq<InstRef>)
    requires InProgramOrder(rs) && |rs| > 0
    ensures forall r :: r in rs ==> r == rs[0] || Before(rs[0], r)
    ensures forall r :: r in rs ==> r == rs[|rs| - 1] || Before(r, rs[|rs| - 1])
  {
    forall r | r in rs ensures r == rs[0] || Before(rs[0], r) {
      var i :| 0 <= i < |rs| && rs[i] == r;
      assert i == 0 || Before(rs[0], rs[i]);
    }
    forall r | r in rs ensures r == rs[|rs| - 1] || Before(r, rs[|rs| - 1]) {
      var i :| 0 <= i < |rs| && rs[i] == r;
      assert i == |rs| - 1 || Before(rs[i], rs[|rs| - 1]);
    }
  }

  /** The elements of a program-ordered sequence are pairwise distinct. */
  lemma {:induction false} InProgramOrderDistinct(rs: seq<InstRef>)
    requires InProgramOrder(rs)
    ensures |set r | r in rs| == |rs|
  {
    if |rs| > 0 {
      var init := rs[..|rs| - 1];
      var last := rs[|rs| - 1];
      assert InProgramOrder(init) by {
        forall i, j | 0 <= i < j < |init| ensures Before(init[i], init[j]) {
          assert init[i] == rs[i] && init[j] == rs[j];
        }
      }
      InProgramOrderDistinct(init);
      forall x | x in init ensures x != last {
        var i :| 0 <= i < |init| && init[i] == x;
        assert Before(rs[i], rs[|rs| - 1]);
      }
      assert rs == init + [last];
      assert (set r | r in rs) == (set r | r in init) + {last};
    }
  }

  lemma ConcatInProgramOrder(rs1: seq<InstRef>, rs2: seq<InstRef>)
    requires InProgramOrder(rs1) && InProgramOrder(rs2)
    requires forall i, j :: 0 <= i < |rs1| && 0 <= j < |rs2| ==> Before(rs1[i], rs2[j])
    ensures InProgramOrder(rs1 + rs2)
  {
    var rs := rs1 + rs2;
    forall i, j | 0 <= i < j < |rs| ensures Before(rs[i], rs[j]) {
      if j < |rs1| {
        assert rs[i] == rs1[i] && rs[j] == rs1[j];
      } else if i >= |rs1| {
        assert rs[i] == rs2[i - |rs1|] && rs[j] == rs2[j - |rs1|];
      } else {
        assert rs[i] == rs1[i] && rs[j] == rs2[j - |rs1|];
      }
    }
  }

  /** One more function scanned: a declaration adds nothing, and the matches of a defined
      function follow those of the functions before it. */
  lemma SelectInModuleNext(m: IRModule, sel: Selector, fi: nat)
    requires fi < |m.functions|
    ensures m.functions[fi].isDeclaration ==> SelectInModule(m, sel, fi + 1) == SelectInModule(m, sel, fi)
    ensures !m.functions[fi].isDeclaration ==>
              SelectInModule(m, sel, fi + 1)
              == SelectInModule(m, sel, fi) + SelectInFunction(m.functions[fi], fi, sel, |m.functions[fi].blocks|)
  {
  }

  /** r names a selected instruction of a defined function of the module. */
  predicate SelectedAt(m: IRModule, sel: Selector, r: InstRef)
  {
    && r.fn < |m.functions| && !m.functions[r.fn].isDeclaration
    && ValidInst(m, r) && Selected(sel, InstAt(m, r))
  }

  /** r is contributed by function fn exactly when it names a selected instruction of fn and
      fn is defined. */
  lemma FunctionSelectionMember(m: IRModule, sel: Selector, fn: nat, r: InstRef)
    requires fn < |m.functions|
    ensures r in FunctionSelection(m, sel, fn) <==> r.fn == fn && SelectedAt(m, sel, r)
  {
    var f := m.functions[fn];
    if !f.isDeclaration {
      SelectInFunctionMember(f, fn, sel, |f.blocks|, r);
    }
  }

  /** r is collected from the first n functions exactly when it names an instruction of one of
      them that is defined, and that instruction is selected. */
  lemma {:induction false} SelectInModuleMember(m: IRModule, sel: Selector, n: nat, r: InstRef)
    requires n <= |m.functions|
    ensures r in SelectInModule(m, sel, n) <==> r.fn < n && SelectedAt(m, sel, r)
  {
    hide FunctionSelection;
    if n > 0 {
      SelectInModuleMember(m, sel, n - 1, r);
      FunctionSelectionMember(m, sel, n - 1, r);
    }
  }

  lemma FunctionSelectionOrdered(m: IRModule, sel: Selector, fn: nat)
    requires fn < |m.functions|
    ensures InProgramOrder(FunctionSelection(m, sel, fn))
  {
    var f := m.functions[fn];
    if !f.isDeclaration {
      SelectInFunctionOrdered(f, fn, sel, |f.blocks|);
    }
  }

  lemma {:induction false} SelectInModuleOrdered(m: IRModule, sel: Selector, n: nat)
    requires n <= |m.functions|
    ensures InProgramOrder(SelectInModule(m, sel, n))
  {
    hide FunctionSelection;
    if n > 0 {
      var prev := SelectInModule(m, sel, n - 1);
      var last := FunctionSelection(m, sel, n - 1);
      SelectInModuleOrdered(m, sel, n - 1);
      FunctionSelectionOrdered(m, sel, n - 1);
      forall i, j | 0 <= i < |prev| && 0 <= j < |last| ensures Before(prev[i], last[j]) {
        SelectInModuleMember(m, sel, n - 1, prev[i]);
        FunctionSelectionMember(m, sel, n - 1, last[j]);
      }
      ConcatInProgramOrder(prev, last);
    }
  }

  /** The scan of the whole module collects exactly the selected instructions of its defined
      functions, in module/block/instruction order. */
  lemma SelectInModuleSpec(m: IRModule, sel: Selector, n: nat)
    requires n <= |m.functions|
    ensures forall r :: r in SelectInModule(m, sel, n)
              <==> && r.fn < n && !m.functions[r.fn].isDeclaration
                   && ValidInst(m, r) && Selected(sel, InstAt(m, r))
    ensures InProgramOrder(SelectInModule(m, sel, n))
  {
    forall r ensures r in SelectInModule(m, sel, n)
                     <==> && r.fn < n && !m.functions[r.fn].isDeclaration
                          && ValidInst(m, r) && Selected(sel, InstAt(m, r)) {
      SelectInModuleMember(m, sel, n, r);
    }
    SelectInModuleOrdered(m, sel, n);
  }
}
