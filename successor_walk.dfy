/** processSucc: the recursive walk over the successors of a loop's exit blocks.
    The walk keeps no visited set, so on some graphs it recurses forever. It is
    modelled with a bound on the recursion depth (fuel); the lemmas below show that
    a bound equal to the number of blocks decides the question exactly: running out of
    that much fuel means the recursion never ends, and otherwise more fuel changes
    nothing. */
module SuccessorWalk {
  import opened Wrappers
  import opened IR
  import opened Analyses
  import opened Aggregator

  /** What a depth-bounded walk produced: the instructions it inserts, or OutOfFuel
      when the recursion went deeper than the bound. */
  datatype Walk = Finished(found: set<InstPtr>) | OutOfFuel

  /** Running one walk after another. */
  function Join(w1: Walk, w2: Walk): Walk
  {
    if w1.Finished? && w2.Finished? then Finished(w1.found + w2.found) else OutOfFuel
  }

  /** What processSucc works with besides the block it is called on: the function
      (index fn), its dominator tree, the loop the walk stays out of, Fix and Crash. */
  datatype WalkContext = WalkContext(f: Function, fn: nat, a: FunctionAnalysis, loop: Loop, fix: InstRef, crash: InstRef)

  predicate ValidContext(ctx: WalkContext)
  {
    WellFormedFunction(ctx.f)
  }

  /** The first instruction of block s of the walked function. */
  function FrontOf(ctx: WalkContext, s: nat): InstRef
  {
    Front(BlockRef(ctx.fn, s))
  }

  /** processSucc(b): the walk over the successors of b; each level of recursion costs
      one unit of fuel. */
  function WalkFrom(ctx: WalkContext, b: nat, fuel: nat): Walk
    requires ValidContext(ctx) && b < |ctx.f.blocks|
    decreases fuel, 0
  {
    if fuel == 0 then OutOfFuel else WalkSuccs(ctx, ctx.f.blocks[b].succs, fuel - 1)
  }

  /** The loop of processSucc over the successors ss, in order. */
  function WalkSuccs(ctx: WalkContext, ss: seq<nat>, fuel: nat): Walk
    requires ValidContext(ctx) && forall j :: 0 <= j < |ss| ==> ss[j] < |ctx.f.blocks|
    decreases fuel, 2, |ss|
  {
    if ss == [] then Finished({})
    else Join(WalkSuccs(ctx, ss[..|ss| - 1], fuel), Visit(ctx, ss[|ss| - 1], fuel))
  }

  /** One iteration of that loop: skip a successor inside the loop or not dominated by Fix,
      recurse into one whose first instruction dominates Crash, else insert that instruction. */
  function Visit(ctx: WalkContext, s: nat, fuel: nat): Walk
    requires ValidContext(ctx) && s < |ctx.f.blocks|
    decreases fuel, 1
  {
    if s in ctx.loop.blocks then Finished({})
    else if !ctx.a.dominatesBlock(ctx.fix, s) then Finished({})
    else if ctx.a.dominates(FrontOf(ctx, s), ctx.crash) then WalkFrom(ctx, s, fuel)
    else Finished({Ptr(FrontOf(ctx, s))})
  }

  /** processLoop's loop over the exit blocks, calling processSucc on each. */
  function WalkExits(ctx: WalkContext, exits: seq<nat>, fuel: nat): Walk
    requires ValidContext(ctx) && forall j :: 0 <= j < |exits| ==> exits[j] < |ctx.f.blocks|
  {
    if exits == [] then Finished({})
    else Join(WalkExits(ctx, exits[..|exits| - 1], fuel), WalkFrom(ctx, exits[|exits| - 1], fuel))
  }

  /** A block whose first instruction the walk may insert: it lies outside the loop,
      Fix dominates it, and its first instruction does not dominate Crash. */
  predicate FrontierBlock(ctx: WalkContext, s: nat)
  {
    && s < |ctx.f.blocks|
    && s !in ctx.loop.blocks
    && ctx.a.dominatesBlock(ctx.fix, s)
    && !ctx.a.dominates(FrontOf(ctx, s), ctx.crash)
  }

  /** The walk only ever inserts first instructions of frontier blocks. */
  predicate OnlyFrontierFronts(ctx: WalkContext, w: Walk)
  {
    w.Finished? ==>
      forall p :: p in w.found ==>
        p.Ptr? && p.ref == FrontOf(ctx, p.ref.blk) && FrontierBlock(ctx, p.ref.blk)
  }

  lemma {:induction false} WalkSuccsInsertsOnlyFrontierFronts(ctx: WalkContext, ss: seq<nat>, fuel: nat)
    requires ValidContext(ctx) && forall j :: 0 <= j < |ss| ==> ss[j] < |ctx.f.blocks|
    ensures OnlyFrontierFronts(ctx, WalkSuccs(ctx, ss, fuel))
    decreases fuel, |ss|
  {
    if ss != [] {
      var s := ss[|ss| - 1];
      WalkSuccsInsertsOnlyFrontierFronts(ctx, ss[..|ss| - 1], fuel);
      if s !in ctx.loop.blocks && ctx.a.dominatesBlock(ctx.fix, s)
         && ctx.a.dominates(FrontOf(ctx, s), ctx.crash) && fuel > 0 {
        assert Visit(ctx, s, fuel) == WalkSuccs(ctx, ctx.f.blocks[s].succs, fuel - 1);
        WalkSuccsInsertsOnlyFrontierFronts(ctx, ctx.f.blocks[s].succs, fuel - 1);
      }
    }
  }

  /** processSucc never inserts anything but the first instruction of a block outside the
      loop that Fix dominates and whose first instruction does not dominate Crash. */
  lemma WalkInsertsOnlyFrontierFronts(ctx: WalkContext, b: nat, fuel: nat)
    requires ValidContext(ctx) && b < |ctx.f.blocks|
    ensures OnlyFrontierFronts(ctx, WalkFrom(ctx, b, fuel))
  {
    if fuel > 0 {
      WalkSuccsInsertsOnlyFrontierFronts(ctx, ctx.f.blocks[b].succs, fuel - 1);
    }
  }

  lemma {:induction false} WalkExitsInsertsOnlyFrontierFronts(ctx: WalkContext, exits: seq<nat>, fuel: nat)
    requires ValidContext(ctx) && forall j :: 0 <= j < |exits| ==> exits[j] < |ctx.f.blocks|
    ensures OnlyFrontierFronts(ctx, WalkExits(ctx, exits, fuel))
  {
    if exits != [] {
      WalkExitsInsertsOnlyFrontierFronts(ctx, exits[..|exits| - 1], fuel);
      WalkInsertsOnlyFrontierFronts(ctx, exits[|exits| - 1], fuel);
    }
  }

  /** A loop over a sequence runs out of fuel exactly when one of its iterations does. */
  lemma {:induction false} WalkSuccsOutOfFuel(ctx: WalkContext, ss: seq<nat>, fuel: nat)
    requires ValidContext(ctx) && forall j :: 0 <= j < |ss| ==> ss[j] < |ctx.f.blocks|
    ensures WalkSuccs(ctx, ss, fuel) == OutOfFuel
            <==> exists j :: 0 <= j < |ss| && Visit(ctx, ss[j], fuel) == OutOfFuel
  {
    if ss != [] {
      var prefix := ss[..|ss| - 1];
      WalkSuccsOutOfFuel(ctx, prefix, fuel);
      if exists j :: 0 <= j < |prefix| && Visit(ctx, prefix[j], fuel) == OutOfFuel {
        var j :| 0 <= j < |prefix| && Visit(ctx, prefix[j], fuel) == OutOfFuel;
        assert ss[j] == prefix[j];
      }
      if exists j :: 0 <= j < |ss| && Visit(ctx, ss[j], fuel) == OutOfFuel {
        var j :| 0 <= j < |ss| && Visit(ctx, ss[j], fuel) == OutOfFuel;
        if j < |prefix| {
          assert prefix[j] == ss[j];
        }
      }
    }
  }

  lemma {:induction false} WalkExitsOutOfFuel(ctx: WalkContext, exits: seq<nat>, fuel: nat)
    requires ValidContext(ctx) && forall j :: 0 <= j < |exits| ==> exits[j] < |ctx.f.blocks|
    ensures WalkExits(ctx, exits, fuel) == OutOfFuel
            <==> exists j :: 0 <= j < |exits| && WalkFrom(ctx, exits[j], fuel) == OutOfFuel
  {
    if exits != [] {
      var prefix := exits[..|exits| - 1];
      WalkExitsOutOfFuel(ctx, prefix, fuel);
      if exists j :: 0 <= j < |prefix| && WalkFrom(ctx, prefix[j], fuel) == OutOfFuel {
        var j :| 0 <= j < |prefix| && WalkFrom(ctx, prefix[j], fuel) == OutOfFuel;
        assert exits[j] == prefix[j];
      }
      if exists j :: 0 <= j < |exits| && WalkFrom(ctx, exits[j], fuel) == OutOfFuel {
        var j :| 0 <= j < |exits| && WalkFrom(ctx, exits[j], fuel) == OutOfFuel;
        if j < |prefix| {
          assert prefix[j] == exits[j];
        }
      }
    }
  }

  /** A walk that finishes gives the same result with any larger bound. */
  lemma {:induction false} WalkSuccsFuelMonotone(ctx: WalkContext, ss: seq<nat>, fuel: nat, more: nat)
    requires ValidContext(ctx) && forall j :: 0 <= j < |ss| ==> ss[j] < |ctx.f.blocks|
    requires fuel <= more && WalkSuccs(ctx, ss, fuel).Finished?
    ensures WalkSuccs(ctx, ss, more) == WalkSuccs(ctx, ss, fuel)
    decreases fuel, |ss|
  {
    if ss != [] {
      var s := ss[|ss| - 1];
      WalkSuccsFuelMonotone(ctx, ss[..|ss| - 1], fuel, more);
      if s !in ctx.loop.blocks && ctx.a.dominatesBlock(ctx.fix, s)
         && ctx.a.dominates(FrontOf(ctx, s), ctx.crash) {
        assert Visit(ctx, s, fuel) == WalkFrom(ctx, s, fuel) && fuel > 0;
        assert Visit(ctx, s, more) == WalkSuccs(ctx, ctx.f.blocks[s].succs, more - 1);
        WalkSuccsFuelMonotone(ctx, ctx.f.blocks[s].succs, fuel - 1, more - 1);
      }
    }
  }

  lemma WalkFuelMonotone(ctx: WalkContext, b: nat, fuel: nat, more: nat)
    requires ValidContext(ctx) && b < |ctx.f.blocks|
    requires fuel <= more && WalkFrom(ctx, b, fuel).Finished?
    ensures WalkFrom(ctx, b, more) == WalkFrom(ctx, b, fuel)
  {
    WalkSuccsFuelMonotone(ctx, ctx.f.blocks[b].succs, fuel - 1, more - 1);
  }

  /** The walk called on b calls itself on s. */
  predicate WalkEdge(ctx: WalkContext, b: nat, s: nat)
    requires b < |ctx.f.blocks|
  {
    && s in ctx.f.blocks[b].succs
    && s !in ctx.loop.blocks
    && ctx.a.dominatesBlock(ctx.fix, s)
    && ctx.a.dominates(FrontOf(ctx, s), ctx.crash)
  }

  /** A chain of recursive calls of the walk. */
  predicate WalkPath(ctx: WalkContext, path: seq<nat>)
  {
    && |path| > 0
    && (forall i :: 0 <= i < |path| ==> path[i] < |ctx.f.blocks|)
    && forall i :: 0 <= i < |path| - 1 ==> WalkEdge(ctx, path[i], path[i + 1])
  }

  /** processSucc called on b never returns: it runs out of every bound. The recursion is
      not a tail call, so the compiled pass would overflow its stack and crash. */
  ghost predicate Diverges(ctx: WalkContext, b: nat)
    requires ValidContext(ctx) && b < |ctx.f.blocks|
  {
    forall fuel: nat :: WalkFrom(ctx, b, fuel) == OutOfFuel
  }

  /** Running out of fuel leaves a chain of recursive calls as long as the fuel. */
  lemma {:induction false} OutOfFuelLeavesPath(ctx: WalkContext, b: nat, fuel: nat)
    requires ValidContext(ctx) && b < |ctx.f.blocks|
    requires WalkFrom(ctx, b, fuel) == OutOfFuel
    ensures exists path :: WalkPath(ctx, path) && |path| == fuel + 1 && path[0] == b
    decreases fuel
  {
    if fuel == 0 {
      assert WalkPath(ctx, [b]);
    } else {
      var ss := ctx.f.blocks[b].succs;
      WalkSuccsOutOfFuel(ctx, ss, fuel - 1);
      var j :| 0 <= j < |ss| && Visit(ctx, ss[j], fuel - 1) == OutOfFuel;
      var s := ss[j];
      assert WalkEdge(ctx, b, s);
      OutOfFuelLeavesPath(ctx, s, fuel - 1);
      var rest :| WalkPath(ctx, rest) && |rest| == fuel && rest[0] == s;
      var path := [b] + rest;
      forall i | 0 <= i < |path| - 1 ensures WalkEdge(ctx, path[i], path[i + 1]) {
        if i > 0 {
          assert path[i] == rest[i - 1] && path[i + 1] == rest[i];
        }
      }
      assert WalkPath(ctx, path);
    }
  }

  /** A call on a block of a cycle of recursive calls never returns. */
  lemma {:induction false} CycleDiverges(ctx: WalkContext, cycle: seq<nat>, fuel: nat)
    requires ValidContext(ctx) && WalkPath(ctx, cycle)
    requires |cycle| > 1 && cycle[0] == cycle[|cycle| - 1]
    ensures forall i :: 0 <= i < |cycle| ==> WalkFrom(ctx, cycle[i], fuel) == OutOfFuel
  {
    if fuel > 0 {
      CycleDiverges(ctx, cycle, fuel - 1);
      forall i | 0 <= i < |cycle| ensures WalkFrom(ctx, cycle[i], fuel) == OutOfFuel {
        var k := if i < |cycle| - 1 then i else 0;
        assert cycle[k] == cycle[i];
        var next := cycle[k + 1];
        assert WalkEdge(ctx, cycle[k], next);
        var ss := ctx.f.blocks[cycle[k]].succs;
        var j :| 0 <= j < |ss| && ss[j] == next;
        assert Visit(ctx, ss[j], fuel - 1) == WalkFrom(ctx, next, fuel - 1) == OutOfFuel;
        WalkSuccsOutOfFuel(ctx, ss, fuel - 1);
      }
    }
  }

  /** A call that recurses into a call that never returns never returns either. */
  lemma EdgeIntoDivergence(ctx: WalkContext, b: nat, s: nat)
    requires ValidContext(ctx) && b < |ctx.f.blocks| && s < |ctx.f.blocks|
    requires WalkEdge(ctx, b, s) && Diverges(ctx, s)
    ensures Diverges(ctx, b)
  {
    forall fuel: nat ensures WalkFrom(ctx, b, fuel) == OutOfFuel {
      if fuel > 0 {
        var ss := ctx.f.blocks[b].succs;
        var j :| 0 <= j < |ss| && ss[j] == s;
        assert Visit(ctx, ss[j], fuel - 1) == WalkFrom(ctx, s, fuel - 1) == OutOfFuel;
        WalkSuccsOutOfFuel(ctx, ss, fuel - 1);
      }
    }
  }

  lemma {:induction false} PathIntoDivergence(ctx: WalkContext, path: seq<nat>)
    requires ValidContext(ctx) && WalkPath(ctx, path)
    requires Diverges(ctx, path[|path| - 1])
    ensures Diverges(ctx, path[0])
  {
    if |path| > 1 {
      var rest := path[1..];
      assert WalkPath(ctx, rest) by {
        forall i | 0 <= i < |rest| - 1 ensures WalkEdge(ctx, rest[i], rest[i + 1]) {
          assert rest[i] == path[i + 1] && rest[i + 1] == path[i + 2];
        }
      }
      PathIntoDivergence(ctx, rest);
      assert WalkEdge(ctx, path[0], path[1]);
      EdgeIntoDivergence(ctx, path[0], path[1]);
    }
  }

  /** A sequence longer than n of numbers below n repeats one. */
  lemma {:induction false} Pigeonhole(path: seq<nat>, n: nat)
    requires |path| > n
    requires forall i :: 0 <= i < |path| ==> path[i] < n
    ensures exists i, j :: 0 <= i < j < |path| && path[i] == path[j]
    decreases |path|
  {
    var last := path[|path| - 1];
    var prefix := path[..|path| - 1];
    if exists i :: 0 <= i < |prefix| && prefix[i] == last {
      var i :| 0 <= i < |prefix| && prefix[i] == last;
      assert path[i] == path[|path| - 1];
    } else {
      // every element of the prefix differs from `last`: rename n - 1 to `last`
      // and the prefix fits below n - 1
      var renamed := seq(|prefix|, k requires 0 <= k < |prefix| => if prefix[k] == n - 1 then last else prefix[k]);
      assert n > 0;
      forall k | 0 <= k < |renamed| ensures renamed[k] < n - 1 {
        assert prefix[k] != last;
      }
      Pigeonhole(renamed, n - 1);
      var i, j :| 0 <= i < j < |renamed| && renamed[i] == renamed[j];
      assert prefix[i] != last && prefix[j] != last;
      assert path[i] == prefix[i] && path[j] == prefix[j];
    }
  }

  /** With as much fuel as the function has blocks, running out of fuel means that the
      recursion of processSucc never ends. */
  lemma OutOfBlockCountFuelDiverges(ctx: WalkContext, b: nat)
    requires ValidContext(ctx) && b < |ctx.f.blocks|
    requires WalkFrom(ctx, b, |ctx.f.blocks|) == OutOfFuel
    ensures Diverges(ctx, b)
  {
    var n := |ctx.f.blocks|;
    OutOfFuelLeavesPath(ctx, b, n);
    var path :| WalkPath(ctx, path) && |path| == n + 1 && path[0] == b;
    Pigeonhole(path, n);
    var i, j :| 0 <= i < j < |path| && path[i] == path[j];
    var cycle := path[i..j + 1];
    assert WalkPath(ctx, cycle) by {
      forall k | 0 <= k < |cycle| - 1 ensures WalkEdge(ctx, cycle[k], cycle[k + 1]) {
        assert cycle[k] == path[i + k] && cycle[k + 1] == path[i + k + 1];
      }
    }
    forall fuel: nat ensures WalkFrom(ctx, path[i], fuel) == OutOfFuel {
      CycleDiverges(ctx, cycle, fuel);
      assert cycle[0] == path[i];
    }
    var lead := path[..i + 1];
    assert WalkPath(ctx, lead) by {
      forall k | 0 <= k < |lead| - 1 ensures WalkEdge(ctx, lead[k], lead[k + 1]) {
        assert lead[k] == path[k] && lead[k + 1] == path[k + 1];
      }
    }
    PathIntoDivergence(ctx, lead);
  }

  /** The walk from b with fuel equal to the number of blocks is the walk without a bound:
      either it runs out and every bound runs out, or it finishes and every larger bound
      gives the same result. */
  lemma BlockCountFuelDecides(ctx: WalkContext, b: nat, fuel: nat)
    requires ValidContext(ctx) && b < |ctx.f.blocks|
    ensures WalkFrom(ctx, b, |ctx.f.blocks|) == OutOfFuel ==> WalkFrom(ctx, b, fuel) == OutOfFuel
    ensures WalkFrom(ctx, b, |ctx.f.blocks|).Finished? && fuel >= |ctx.f.blocks|
            ==> WalkFrom(ctx, b, fuel) == WalkFrom(ctx, b, |ctx.f.blocks|)
  {
    if WalkFrom(ctx, b, |ctx.f.blocks|) == OutOfFuel {
      OutOfBlockCountFuelDiverges(ctx, b);
    } else if fuel >= |ctx.f.blocks| {
      WalkFuelMonotone(ctx, b, |ctx.f.blocks|, fuel);
    }
  }

  /** Block c is reached by processSucc called on b: a chain of recursive calls leads from b
      to a call on c. */
  ghost predicate Reaches(ctx: WalkContext, b: nat, c: nat)
  {
    exists path :: WalkPath(ctx, path) && path[0] == b && path[|path| - 1] == c
  }

  /** p is the first instruction of a frontier block that is a successor of a block reached
      from b. */
  ghost predicate FrontierReached(ctx: WalkContext, b: nat, p: InstPtr)
  {
    && p.Ptr? && p.ref == FrontOf(ctx, p.ref.blk) && FrontierBlock(ctx, p.ref.blk)
    && exists c: nat :: c < |ctx.f.blocks| && Reaches(ctx, b, c) && p.ref.blk in ctx.f.blocks[c].succs
  }

  /** A loop over successors that finishes finished every iteration, and holds exactly what
      the iterations found. */
  lemma {:induction false} WalkSuccsFound(ctx: WalkContext, ss: seq<nat>, fuel: nat, p: InstPtr)
    requires ValidContext(ctx) && forall j :: 0 <= j < |ss| ==> ss[j] < |ctx.f.blocks|
    requires WalkSuccs(ctx, ss, fuel).Finished?
    ensures forall j :: 0 <= j < |ss| ==> Visit(ctx, ss[j], fuel).Finished?
    ensures p in WalkSuccs(ctx, ss, fuel).found
            <==> exists j :: 0 <= j < |ss| && Visit(ctx, ss[j], fuel).Finished? && p in Visit(ctx, ss[j], fuel).found
  {
    if ss != [] {
      var init := ss[..|ss| - 1];
      WalkSuccsFound(ctx, init, fuel, p);
      forall j | 0 <= j < |init| ensures init[j] == ss[j] {
      }
    }
  }

  /** The loop over the exit blocks, when it finishes, finished every walk and holds exactly
      what the walks found. */
  lemma {:induction false} WalkExitsFound(ctx: WalkContext, exits: seq<nat>, fuel: nat, p: InstPtr)
    requires ValidContext(ctx) && forall j :: 0 <= j < |exits| ==> exits[j] < |ctx.f.blocks|
    requires WalkExits(ctx, exits, fuel).Finished?
    ensures forall j :: 0 <= j < |exits| ==> WalkFrom(ctx, exits[j], fuel).Finished?
    ensures p in WalkExits(ctx, exits, fuel).found
            <==> exists j :: 0 <= j < |exits| && WalkFrom(ctx, exits[j], fuel).Finished? && p in WalkFrom(ctx, exits[j], fuel).found
  {
    if exits != [] {
      var init := exits[..|exits| - 1];
      WalkExitsFound(ctx, init, fuel, p);
      forall j | 0 <= j < |init| ensures init[j] == exits[j] {
      }
    }
  }

  /** A call that recurses into s reaches whatever the call on s reaches. */
  lemma ReachesThroughEdge(ctx: WalkContext, b: nat, s: nat, c: nat)
    requires b < |ctx.f.blocks| && WalkEdge(ctx, b, s) && Reaches(ctx, s, c)
    ensures Reaches(ctx, b, c)
  {
    var path :| WalkPath(ctx, path) && path[0] == s && path[|path| - 1] == c;
    var longer := [b] + path;
    assert WalkPath(ctx, longer) by {
      forall i | 0 <= i < |longer| - 1 ensures WalkEdge(ctx, longer[i], longer[i + 1]) {
        if i > 0 {
          assert longer[i] == path[i - 1] && longer[i + 1] == path[i];
        }
      }
    }
    assert longer[|longer| - 1] == c;
  }

  /** Whatever processSucc on b inserts is the first instruction of a frontier block that
      follows a block its recursion reaches. */
  lemma {:induction false} WalkFoundIsReached(ctx: WalkContext, b: nat, fuel: nat, p: InstPtr)
    requires ValidContext(ctx) && b < |ctx.f.blocks|
    requires WalkFrom(ctx, b, fuel).Finished? && p in WalkFrom(ctx, b, fuel).found
    ensures FrontierReached(ctx, b, p)
    decreases fuel
  {
    var ss := ctx.f.blocks[b].succs;
    assert fuel > 0;
    WalkSuccsFound(ctx, ss, fuel - 1, p);
    var j :| 0 <= j < |ss| && Visit(ctx, ss[j], fuel - 1).Finished? && p in Visit(ctx, ss[j], fuel - 1).found;
    var s := ss[j];
    if s !in ctx.loop.blocks && ctx.a.dominatesBlock(ctx.fix, s) && ctx.a.dominates(FrontOf(ctx, s), ctx.crash) {
      assert WalkEdge(ctx, b, s);
      WalkFoundIsReached(ctx, s, fuel - 1, p);
      var c: nat :| c < |ctx.f.blocks| && Reaches(ctx, s, c) && p.ref.blk in ctx.f.blocks[c].succs;
      ReachesThroughEdge(ctx, b, s, c);
    } else {
      assert p == Ptr(FrontOf(ctx, s));
      assert WalkPath(ctx, [b]);
      assert Reaches(ctx, b, b);
    }
  }

  /** processSucc on path[0], when it returns, inserts the first instruction of every frontier
      successor of every block its recursion reaches. */
  lemma {:induction false} ReachedFrontierIsFound(ctx: WalkContext, path: seq<nat>, fuel: nat, s: nat)
    requires ValidContext(ctx) && WalkPath(ctx, path)
    requires WalkFrom(ctx, path[0], fuel).Finished?
    requires s in ctx.f.blocks[path[|path| - 1]].succs && FrontierBlock(ctx, s)
    ensures Ptr(FrontOf(ctx, s)) in WalkFrom(ctx, path[0], fuel).found
    decreases |path|
  {
    var b := path[0];
    var ss := ctx.f.blocks[b].succs;
    var p := Ptr(FrontOf(ctx, s));
    assert fuel > 0;
    WalkSuccsFound(ctx, ss, fuel - 1, p);
    if |path| == 1 {
      var j :| 0 <= j < |ss| && ss[j] == s;
      assert Visit(ctx, ss[j], fuel - 1) == Finished({p});
    } else {
      var next := path[1];
      assert WalkEdge(ctx, b, next);
      var j :| 0 <= j < |ss| && ss[j] == next;
      assert Visit(ctx, ss[j], fuel - 1) == WalkFrom(ctx, next, fuel - 1);
      var rest := path[1..];
      assert WalkPath(ctx, rest) by {
        forall i | 0 <= i < |rest| - 1 ensures WalkEdge(ctx, rest[i], rest[i + 1]) {
          assert rest[i] == path[i + 1] && rest[i + 1] == path[i + 2];
        }
      }
      ReachedFrontierIsFound(ctx, rest, fuel - 1, s);
    }
  }

  /** A processSucc call on b that returns inserts exactly the first instructions of the
      frontier blocks that follow the blocks its recursion reaches. */
  lemma WalkFindsExactlyReachedFrontier(ctx: WalkContext, b: nat, fuel: nat, p: InstPtr)
    requires ValidContext(ctx) && b < |ctx.f.blocks| && WalkFrom(ctx, b, fuel).Finished?
    ensures p in WalkFrom(ctx, b, fuel).found <==> FrontierReached(ctx, b, p)
  {
    if p in WalkFrom(ctx, b, fuel).found {
      WalkFoundIsReached(ctx, b, fuel, p);
    }
    if FrontierReached(ctx, b, p) {
      var c: nat :| c < |ctx.f.blocks| && Reaches(ctx, b, c) && p.ref.blk in ctx.f.blocks[c].succs;
      var path :| WalkPath(ctx, path) && path[0] == b && path[|path| - 1] == c;
      ReachedFrontierIsFound(ctx, path, fuel, p.ref.blk);
    }
  }

  lemma WalkSuccsPrefixOutOfFuel(ctx: WalkContext, ss: seq<nat>, k: nat, fuel: nat)
    requires ValidContext(ctx) && forall j :: 0 <= j < |ss| ==> ss[j] < |ctx.f.blocks|
    requires k <= |ss| && WalkSuccs(ctx, ss[..k], fuel) == OutOfFuel
    ensures WalkSuccs(ctx, ss, fuel) == OutOfFuel
  {
    WalkSuccsOutOfFuel(ctx, ss[..k], fuel);
    var j :| 0 <= j < k && Visit(ctx, ss[..k][j], fuel) == OutOfFuel;
    assert ss[..k][j] == ss[j];
    WalkSuccsOutOfFuel(ctx, ss, fuel);
  }

  /** One more exit block walked from. */
  lemma WalkExitsStep(ctx: WalkContext, exits: seq<nat>, i: nat, fuel: nat)
    requires ValidContext(ctx) && forall j :: 0 <= j < |exits| ==> exits[j] < |ctx.f.blocks|
    requires i < |exits|
    ensures WalkExits(ctx, exits[..i + 1], fuel) == Join(WalkExits(ctx, exits[..i], fuel), WalkFrom(ctx, exits[i], fuel))
  {
    assert exits[..i + 1][..i] == exits[..i];
  }

  /** One more successor visited. */
  lemma WalkSuccsStep(ctx: WalkContext, ss: seq<nat>, i: nat, fuel: nat)
    requires ValidContext(ctx) && forall j :: 0 <= j < |ss| ==> ss[j] < |ctx.f.blocks|
    requires i < |ss|
    ensures WalkSuccs(ctx, ss[..i + 1], fuel) == Join(WalkSuccs(ctx, ss[..i], fuel), Visit(ctx, ss[i], fuel))
  {
    assert ss[..i + 1][..i] == ss[..i];
  }

  /** processSucc, inserting into the shared output set as it goes. It returns false when
      the recursion went deeper than `fuel`; the source has no such bound. */
  method ProcessSucc(ctx: WalkContext, b: nat, fuel: nat, termInsts: FrontierSet) returns (finished: bool)
    requires ValidContext(ctx) && b < |ctx.f.blocks|
    modifies termInsts
    ensures finished == WalkFrom(ctx, b, fuel).Finished?
    ensures finished ==> termInsts.elems == old(termInsts.elems) + WalkFrom(ctx, b, fuel).found
    decreases fuel, 0
  {
    if fuel == 0 {
      return false;
    }
    var ss := ctx.f.blocks[b].succs;
    for i := 0 to |ss|
      invariant WalkSuccs(ctx, ss[..i], fuel - 1).Finished?
      invariant termInsts.elems == old(termInsts.elems) + WalkSuccs(ctx, ss[..i], fuel - 1).found
    {
      WalkSuccsStep(ctx, ss, i, fuel - 1);
      var ok := VisitSucc(ctx, ss[i], fuel - 1, termInsts);
      if !ok {
        WalkSuccsPrefixOutOfFuel(ctx, ss, i + 1, fuel - 1);
        return false;
      }
    }
    assert ss[..|ss|] == ss;
    return true;
  }

  /** The body of processSucc's loop for the successor sbb. */
  method VisitSucc(ctx: WalkContext, sbb: nat, fuel: nat, termInsts: FrontierSet) returns (finished: bool)
    requires ValidContext(ctx) && sbb < |ctx.f.blocks|
    modifies termInsts
    ensures finished == Visit(ctx, sbb, fuel).Finished?
    ensures finished ==> termInsts.elems == old(termInsts.elems) + Visit(ctx, sbb, fuel).found
    decreases fuel, 1
  {
    if sbb in ctx.loop.blocks {
      return true;
    }
    if !ctx.a.dominatesBlock(ctx.fix, sbb) {
      return true;
    }
    if ctx.a.dominates(FrontOf(ctx, sbb), ctx.crash) {
      finished := ProcessSucc(ctx, sbb, fuel, termInsts);
    } else {
      termInsts.Insert(Ptr(FrontOf(ctx, sbb)));
      finished := true;
    }
  }
}
