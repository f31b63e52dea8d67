// isPotentiallyReachable: a walk over blocks with shortcuts through dominators and
// whole loops, cut off after 32 blocks (src/lib/Analysis/CFG.cpp).
module CfgReachability {
  import opened Options
  import opened CfgGraph

  // ------------------------------------------------------------- the givens

  /** A loop with its enclosing loop, which comes earlier in the list. */
  datatype Loop = Loop(parent: Option<nat>, blocks: set<Block>)

  datatype LoopInfo = LoopInfo(loops: seq<Loop>, loopFor: map<Block, nat>)

  /** b's innermost loop is i or nested inside i. */
  predicate Inside(li: LoopInfo, j: nat, i: nat)
    requires j < |li.loops|
    requires forall k :: 0 <= k < |li.loops| && li.loops[k].parent.Some? ==> li.loops[k].parent.value < k
    decreases j
  {
    j == i || (li.loops[j].parent.Some? && Inside(li, li.loops[j].parent.value, i))
  }

  predicate Forest(li: LoopInfo) {
    && (forall k :: 0 <= k < |li.loops| && li.loops[k].parent.Some? ==> li.loops[k].parent.value < k)
    && (forall b :: b in li.loopFor ==> li.loopFor[b] < |li.loops|)
  }

  ghost predicate OnCycle(f: Function, a: Block) {
    exists c :: Edge(f, a, c) && Reaches(f, c, a)
  }

  /** The loops form a forest, a block belongs to its innermost loop and to all loops around
      it and to no other, and every loop is strongly connected, by at least one edge. */
  ghost predicate ValidLoops(f: Function, li: LoopInfo) {
    && Forest(li)
    && (forall b, i :: 0 <= i < |li.loops| ==>
          (b in li.loops[i].blocks <==> b in li.loopFor && Inside(li, li.loopFor[b], i)))
    && (forall i, a, b :: 0 <= i < |li.loops| && a in li.loops[i].blocks && b in li.loops[i].blocks ==>
          Reaches(f, a, b))
    && (forall b :: b in li.loopFor ==> b < |f.succ| && OnCycle(f, b))
  }

  /** Who dominates whom, and what the entry reaches. */
  datatype DomTree = DomTree(reachable: set<Block>, dominates: set<(Block, Block)>)

  ghost predicate ValidDomTree(f: Function, dt: DomTree) {
    && (forall b :: b in dt.reachable <==> Reaches(f, ENTRY, b))
    && (forall a, b :: (a, b) in dt.dominates && b in dt.reachable ==> Dominates(f, a, b))
  }

  // ------------------------------------------------------------------ loops

  /** The outermost loop around a loop, by the parent links. */
  function Root(li: LoopInfo, i: nat): (r: nat)
    requires Forest(li) && i < |li.loops|
    ensures r < |li.loops| && li.loops[r].parent.None? && Inside(li, i, r)
    decreases i
  {
    if li.loops[i].parent.None? then i else Root(li, li.loops[i].parent.value)
  }

  lemma {:induction false} RootIsUnique(li: LoopInfo, i: nat, r: nat)
    requires Forest(li) && i < |li.loops| && r < |li.loops| && li.loops[r].parent.None? && Inside(li, i, r)
    ensures r == Root(li, i)
    decreases i
  {
    if i != r { RootIsUnique(li, li.loops[i].parent.value, r); }
  }

  /** The outermost loop of a block, as a number. */
  function Outermost(li: Option<LoopInfo>, b: Block): Option<nat>
    requires li.Some? ==> Forest(li.value)
  {
    if li.Some? && b in li.value.loopFor then Some(Root(li.value, li.value.loopFor[b])) else None
  }

  method GetOutermostLoop(li: LoopInfo, b: Block) returns (r: Option<nat>)
    requires Forest(li)
    ensures r == Outermost(Some(li), b)
  {
    if b !in li.loopFor {
      return None;
    }
    var l: nat := li.loopFor[b];
    while li.loops[l].parent.Some?
      invariant l < |li.loops|
      invariant Root(li, l) == Root(li, li.loopFor[b])
      decreases l
    {
      l := li.loops[l].parent.value;
    }
    return Some(l);
  }

  method LoopContainsBoth(li: LoopInfo, a: Block, b: Block) returns (r: bool)
    requires Forest(li)
    ensures r <==> SameOutermost(Some(li), a, b)
  {
    var la := GetOutermostLoop(li, a);
    var lb := GetOutermostLoop(li, b);
    return la.Some? && la == lb;
  }

  /** An outermost loop's blocks are those it is the outermost loop of. */
  lemma OutermostBlocks(f: Function, li: LoopInfo, i: nat, b: Block)
    requires ValidLoops(f, li) && i < |li.loops| && li.loops[i].parent.None?
    ensures b in li.loops[i].blocks <==> Outermost(Some(li), b) == Some(i)
  {
    if b in li.loops[i].blocks { RootIsUnique(li, li.loopFor[b], i); }
  }

  ghost predicate IsExit(f: Function, blocks: set<Block>, y: Block) {
    y !in blocks && exists x :: x in blocks && Edge(f, x, y)
  }

  /** The successors of the loop's blocks that lie outside it, in some order and with repetitions. */
  method GetExitBlocks(f: Function, blocks: set<Block>) returns (exits: seq<Block>)
    requires forall b :: b in blocks ==> b < |f.succ|
    ensures forall y :: y in exits <==> IsExit(f, blocks, y)
  {
    exits := [];
    var todo := blocks;
    while todo != {}
      invariant todo <= blocks
      invariant forall y :: y in exits <==> y !in blocks && exists x :: x in blocks - todo && Edge(f, x, y)
    {
      var b :| b in todo;
      var succ := f.succ[b];
      for i := 0 to |succ|
        invariant forall y :: y in exits <==>
                    y !in blocks && ((exists x :: x in blocks - todo && Edge(f, x, y)) || y in succ[..i])
      {
        if succ[i] !in blocks {
          exits := exits + [succ[i]];
        }
      }
      assert succ[..|succ|] == succ;
      assert forall y :: y in succ <==> Edge(f, b, y);
      assert blocks - (todo - {b}) == blocks - todo + {b};
      todo := todo - {b};
    }
  }

  /** a and b lie in the same outermost loop. */
  predicate SameOutermost(li: Option<LoopInfo>, a: Block, b: Block)
    requires li.Some? ==> Forest(li.value)
  {
    Outermost(li, a).Some? && Outermost(li, a) == Outermost(li, b)
  }

  /** From b the walk goes on to exactly these blocks. */
  ghost predicate LeadsTo(f: Function, li: Option<LoopInfo>, b: Block, more: seq<Block>)
    requires li.Some? ==> Forest(li.value)
  {
    match Outermost(li, b)
    case None => forall y :: y in more <==> Edge(f, b, y)
    case Some(l) => forall y :: y in more <==> IsExit(f, li.value.loops[l].blocks, y)
  }

  // -------------------------------------------------------------- the walk

  const LIMIT: nat := 32

  /** b has been dealt with: visited itself, or inside an outermost loop that was visited. */
  ghost predicate Covered(li: Option<LoopInfo>, visited: set<Block>, b: Block)
    requires li.Some? ==> Forest(li.value)
  {
    b in visited
    || exists v :: v in visited && SameOutermost(li, v, b)
  }

  /** Everything one step from what is covered is covered or waiting. */
  ghost predicate Frontier(f: Function, li: Option<LoopInfo>, visited: set<Block>, work: set<Block>)
    requires li.Some? ==> Forest(li.value)
  {
    forall a, b :: Covered(li, visited, a) && Edge(f, a, b) ==> Covered(li, visited, b) || b in work
  }

  ghost function Elems(s: seq<Block>): (r: set<Block>)
    ensures forall b :: b in r <==> b in s
  {
    set b | b in s
  }

  /** Some block of a set reaches the stop block. */
  ghost predicate AnyReaches(f: Function, from: seq<Block>, stop: Block) {
    exists b :: b in from && Reaches(f, b, stop)
  }

  ghost predicate ReachedFrom(f: Function, from: seq<Block>, b: Block) {
    exists a :: a in from && Reaches(f, a, b)
  }

  /** The answer was a guess: 32 different blocks were reached without finding out. */
  ghost predicate GaveUp(f: Function, from: seq<Block>) {
    exists visited: set<Block> :: |visited| == 32 && forall b :: b in visited ==> ReachedFrom(f, from, b)
  }

  /** Fewer than 32 blocks, with the outermost loops they lie in, make up all that is reached. */
  ghost predicate FewReached(f: Function, li: Option<LoopInfo>, from: seq<Block>)
    requires li.Some? ==> Forest(li.value)
  {
    exists visited: set<Block> :: |visited| < 32 && forall b :: ReachedFrom(f, from, b) ==> Covered(li, visited, b)
  }

  lemma ReachedOn(f: Function, from: seq<Block>, b: Block, c: Block)
    requires ReachedFrom(f, from, b) && Reaches(f, b, c)
    ensures ReachedFrom(f, from, c)
  {
    var a :| a in from && Reaches(f, a, b);
    ReachesTransitive(f, a, b, c);
  }

  lemma ReachedOnto(f: Function, from: seq<Block>, b: Block, stop: Block)
    requires ReachedFrom(f, from, b) && Reaches(f, b, stop)
    ensures AnyReaches(f, from, stop)
  {
    ReachedOn(f, from, b, stop);
  }

  /** A block that dominates a reachable one reaches it. */
  lemma DominatorReaches(f: Function, dt: DomTree, a: Block, b: Block)
    requires ValidDomTree(f, dt) && b in dt.reachable && (a, b) in dt.dominates
    ensures Reaches(f, a, b)
  {
    var w :| IsWalkFromTo(f, w, ENTRY, b);
    assert a in w;
    var k :| 0 <= k < |w| && w[k] == a;
    var v := w[k..];
    forall i | 0 <= i < |v| - 1 ensures Edge(f, v[i], v[i + 1]) {
      assert Edge(f, w[k + i], w[k + i + 1]);
    }
    assert IsWalkFromTo(f, v, a, b);
  }

  /** With nothing waiting, what is covered is closed, so a stop block outside it is out of reach. */
  lemma {:induction false} CoveredIsClosed(f: Function, li: Option<LoopInfo>, visited: set<Block>, w: seq<Block>,
      k: nat)
    requires li.Some? ==> Forest(li.value)
    requires Frontier(f, li, visited, {}) && IsWalk(f, w) && k < |w| && Covered(li, visited, w[0])
    ensures Covered(li, visited, w[k])
  {
    if k > 0 {
      CoveredIsClosed(f, li, visited, w, k - 1);
      assert Edge(f, w[k - 1], w[k - 1 + 1]);
    }
  }

  /** Visiting a block whose successors, or whose loop's exits, are put on the work list keeps the frontier. */
  lemma VisitKeepsFrontier(f: Function, li: Option<LoopInfo>, visited: set<Block>, work: set<Block>, bb: Block,
                           more: set<Block>)
    requires li.Some? ==> ValidLoops(f, li.value)
    requires Frontier(f, li, visited, work + {bb})
    requires match Outermost(li, bb)
             case None => forall y :: Edge(f, bb, y) ==> y in more
             case Some(l) => forall y :: IsExit(f, li.value.loops[l].blocks, y) ==> y in more
    ensures Frontier(f, li, visited + {bb}, work + more)
  {
    var visited' := visited + {bb};
    forall a, b | Covered(li, visited', a) && Edge(f, a, b) ensures Covered(li, visited', b) || b in work + more {
      if Covered(li, visited, a) {
        if Covered(li, visited, b) { CoveredGrows(li, visited, bb, b); }
      } else if Outermost(li, bb).None? {
        assert a == bb;
      } else {
        var l := Outermost(li, bb).value;
        assert Outermost(li, a) == Some(l);
        OutermostBlocks(f, li.value, l, a);
        OutermostBlocks(f, li.value, l, b);
        if b in li.value.loops[l].blocks {
          assert bb in visited';
        } else {
          assert IsExit(f, li.value.loops[l].blocks, b);
        }
      }
    }
  }

  lemma CoveredGrows(li: Option<LoopInfo>, visited: set<Block>, bb: Block, b: Block)
    requires li.Some? ==> Forest(li.value)
    requires Covered(li, visited, b)
    ensures Covered(li, visited + {bb}, b)
  {
    if b !in visited {
      var v :| v in visited && SameOutermost(li, v, b);
      assert v in visited + {bb};
    }
  }

  /** What holds at the top of the walk. */
  ghost predicate Walking(f: Function, li: Option<LoopInfo>, from: seq<Block>, stop: Block, visited: set<Block>,
                          work: seq<Block>)
    requires li.Some? ==> Forest(li.value)
  {
    && (forall b :: b in work || b in visited ==> b < |f.succ| && ReachedFrom(f, from, b))
    && (forall b :: b in from ==> Covered(li, visited, b) || b in work)
    && Frontier(f, li, visited, Elems(work))
    && !Covered(li, visited, stop)
  }

  lemma WalkEndsUnreached(f: Function, li: Option<LoopInfo>, from: seq<Block>, stop: Block, visited: set<Block>)
    requires li.Some? ==> Forest(li.value)
    requires Walking(f, li, from, stop, visited, []) && |visited| < 32
    ensures !AnyReaches(f, from, stop) && FewReached(f, li, from)
  {
    forall b | ReachedFrom(f, from, b) ensures Covered(li, visited, b) {
      var a :| a in from && Reaches(f, a, b);
      var w :| IsWalkFromTo(f, w, a, b);
      CoveredIsClosed(f, li, visited, w, |w| - 1);
    }
    if b :| b in from && Reaches(f, b, stop) { assert ReachedFrom(f, from, stop); }
  }

  /** Dropping a block that was visited before. */
  lemma SkipVisited(f: Function, li: Option<LoopInfo>, from: seq<Block>, stop: Block, visited: set<Block>,
                    work: seq<Block>)
    requires li.Some? ==> Forest(li.value)
    requires work != [] && work[|work| - 1] in visited && Walking(f, li, from, stop, visited, work)
    ensures Walking(f, li, from, stop, visited, work[..|work| - 1])
  {
    hide ReachedFrom, Outermost;
    var bb, rest := work[|work| - 1], work[..|work| - 1];
    assert work == rest + [bb];
    assert Elems(work) == Elems(rest) + {bb};
    assert Covered(li, visited, bb);
  }

  lemma LoopBlocksInFunction(f: Function, li: LoopInfo, i: nat)
    requires ValidLoops(f, li) && i < |li.loops|
    ensures forall b :: b in li.loops[i].blocks ==> b < |f.succ|
  {
    forall b | b in li.loops[i].blocks ensures b < |f.succ| { assert b in li.loopFor; }
  }

  lemma WalkStarts(f: Function, li: Option<LoopInfo>, from: seq<Block>, stop: Block)
    requires li.Some? ==> Forest(li.value)
    requires forall b :: b in from ==> b < |f.succ|
    ensures Walking(f, li, from, stop, {}, from)
  {
    forall b | b in from ensures ReachedFrom(f, from, b) { ReachesSelf(f, b); }
  }

  lemma NextIsReached(f: Function, li: Option<LoopInfo>, from: seq<Block>, stop: Block, visited: set<Block>,
                      work: seq<Block>)
    requires li.Some? ==> Forest(li.value)
    requires Walking(f, li, from, stop, visited, work) && work != []
    ensures work[|work| - 1] < |f.succ| && ReachedFrom(f, from, work[|work| - 1])
    ensures forall b :: b in visited ==> ReachedFrom(f, from, b)
  {
    assert work[|work| - 1] in work;
  }

  lemma LimitMet(f: Function, from: seq<Block>, visited: set<Block>, bb: Block)
    requires bb !in visited && |visited| == LIMIT - 1 && ReachedFrom(f, from, bb)
    requires forall b :: b in visited ==> ReachedFrom(f, from, b)
    ensures GaveUp(f, from)
  {
    assert |visited + {bb}| == LIMIT;
  }

  /** Visiting a new block that says nothing about the stop block. */
  lemma VisitNew(f: Function, li: Option<LoopInfo>, from: seq<Block>, stop: Block, visited: set<Block>,
                 work: seq<Block>, more: seq<Block>)
    requires WellFormed(f) && (li.Some? ==> ValidLoops(f, li.value))
    requires work != [] && Walking(f, li, from, stop, visited, work)
    requires var bb := work[|work| - 1];
             bb != stop && !SameOutermost(li, bb, stop) && LeadsTo(f, li, bb, more)
    ensures Walking(f, li, from, stop, visited + {work[|work| - 1]}, work[..|work| - 1] + more)
  {
    var bb, rest := work[|work| - 1], work[..|work| - 1];
    var visited', work' := visited + {bb}, rest + more;
    assert work == rest + [bb];
    assert Elems(work) == Elems(rest) + {bb} && Elems(work') == Elems(rest) + Elems(more);
    VisitKeepsFrontier(f, li, visited, Elems(rest), bb, Elems(more));
    assert bb in work;
    forall y | y in more ensures y < |f.succ| && ReachedFrom(f, from, y) {
      ReachesSelf(f, bb);
      match Outermost(li, bb)
      case None =>
        ReachesEdge(f, bb, bb, y);
        ReachedOn(f, from, bb, y);
      case Some(l) =>
        var x :| x in li.value.loops[l].blocks && Edge(f, x, y);
        OutermostBlocks(f, li.value, l, bb);
        assert Reaches(f, bb, x);
        ReachesEdge(f, bb, x, y);
        ReachedOn(f, from, bb, y);
    }
    forall b | b in from && b !in work' ensures Covered(li, visited', b) {
      if Covered(li, visited, b) { CoveredGrows(li, visited, bb, b); } else { assert b == bb; }
    }
  }

  lemma SameLoopReaches(f: Function, li: LoopInfo, a: Block, b: Block)
    requires ValidLoops(f, li) && SameOutermost(Some(li), a, b)
    ensures Reaches(f, a, b)
  {
    var l := Outermost(Some(li), a).value;
    OutermostBlocks(f, li, l, a);
    OutermostBlocks(f, li, l, b);
  }

  /** The three shortcuts to a true answer. */
  method KnownToReach(f: Function, bb: Block, stop: Block, dom: Option<DomTree>, li: Option<LoopInfo>) returns (r: bool)
    requires (li.Some? ==> ValidLoops(f, li.value))
    requires (dom.Some? ==> ValidDomTree(f, dom.value) && stop in dom.value.reachable)
    ensures r ==> Reaches(f, bb, stop)
    ensures !r ==> bb != stop && !SameOutermost(li, bb, stop)
  {
    if bb == stop {
      ReachesSelf(f, bb);
      return true;
    }
    if dom.Some? && (bb, stop) in dom.value.dominates {
      DominatorReaches(f, dom.value, bb, stop);
      return true;
    }
    if li.Some? {
      var both := LoopContainsBoth(li.value, bb, stop);
      if both {
        SameLoopReaches(f, li.value, bb, stop);
        return true;
      }
    }
    return false;
  }

  /** Where the walk goes from a block: to the exits of its outermost loop, or to its successors. */
  method StepFrom(f: Function, bb: Block, li: Option<LoopInfo>) returns (more: seq<Block>)
    requires bb < |f.succ| && (li.Some? ==> ValidLoops(f, li.value))
    ensures LeadsTo(f, li, bb, more)
  {
    var outer: Option<nat> := None;
    if li.Some? {
      outer := GetOutermostLoop(li.value, bb);
    }
    if outer.Some? {
      LoopBlocksInFunction(f, li.value, outer.value);
      more := GetExitBlocks(f, li.value.loops[outer.value].blocks);
    } else {
      more := f.succ[bb];
    }
  }

  /** A false answer means no path exists from any initial block to the stop block, although the
      walk jumps from a loop straight to its exits. A true answer means some path does exist,
      unless the walk gave up at its limit. */
  method IsPotentiallyReachableFromMany(f: Function, worklist: seq<Block>, stop: Block, dt: Option<DomTree>,
                                        li: Option<LoopInfo>)
    returns (r: bool)
    requires WellFormed(f) && stop < |f.succ|
    requires worklist != [] && forall b :: b in worklist ==> b < |f.succ|
    requires (li.Some? ==> ValidLoops(f, li.value)) && (dt.Some? ==> ValidDomTree(f, dt.value))
    ensures !r ==> !AnyReaches(f, worklist, stop)
    ensures r ==> AnyReaches(f, worklist, stop) || GaveUp(f, worklist)
    ensures !r ==> FewReached(f, li, worklist)
  {
    var dom := if dt.Some? && stop !in dt.value.reachable then None else dt;
    var limit := LIMIT;
    var visited: set<Block> := {};
    var work := worklist;
    assert li.Some? ==> Forest(li.value);
    hide Walking, ValidLoops, ValidDomTree, Forest, Reaches, ReachedFrom, GaveUp, AnyReaches, Root, WellFormed,
      Outermost, SameOutermost, LeadsTo, FewReached;
    WalkStarts(f, li, worklist, stop);
    while work != []
      invariant Walking(f, li, worklist, stop, visited, work)
      invariant limit > 0 && |visited| + limit == LIMIT
      decreases limit, |work|
    {
      var bb := work[|work| - 1];
      var rest := work[..|work| - 1];
      NextIsReached(f, li, worklist, stop, visited, work);
      if bb in visited {
        SkipVisited(f, li, worklist, stop, visited, work);
        work := rest;
        continue;
      }
      var known := KnownToReach(f, bb, stop, dom, li);
      if known {
        ReachedOnto(f, worklist, bb, stop);
        return true;
      }
      limit := limit - 1;
      if limit == 0 {
        LimitMet(f, worklist, visited, bb);
        return true;
      }
      var more := StepFrom(f, bb, li);
      VisitNew(f, li, worklist, stop, visited, work, more);
      visited := visited + {bb};
      work := rest + more;
    }
    WalkEndsUnreached(f, li, worklist, stop, visited);
    return false;
  }

  // ----------------------------------------------------------- instructions

  /** Executing position i of block a may be followed by position j of block b: later in the same
      block, or around at least one edge. */
  ghost predicate InstReaches(f: Function, a: Block, i: nat, b: Block, j: nat) {
    (a == b && i <= j) || exists c :: Edge(f, a, c) && Reaches(f, c, b)
  }

  /** The entry block has no predecessors. */
  ghost predicate EntryHasNoPreds(f: Function) {
    forall a :: !Edge(f, a, ENTRY)
  }

  lemma EntryIsFirst(f: Function, a: Block)
    requires EntryHasNoPreds(f) && a != ENTRY
    ensures !Reaches(f, a, ENTRY)
  {
    forall w | IsWalk(f, w) && w[0] == a ensures w[|w| - 1] != ENTRY {
      if |w| > 1 { assert Edge(f, w[|w| - 2], w[|w| - 2 + 1]); }
    }
  }

  lemma FirstEdge(f: Function, a: Block, b: Block)
    requires a != b && Reaches(f, a, b)
    ensures exists c :: Edge(f, a, c) && Reaches(f, c, b)
  {
    var w: seq<Block> :| IsWalkFromTo(f, w, a, b);
    var v := w[1..];
    assert Edge(f, w[0], w[0 + 1]);
    forall k | 0 <= k < |v| - 1 ensures Edge(f, v[k], v[k + 1]) { assert Edge(f, w[k + 1], w[k + 1 + 1]); }
    assert IsWalkFromTo(f, v, w[1], b);
  }

  lemma NothingReached(f: Function, li: Option<LoopInfo>)
    requires li.Some? ==> Forest(li.value)
    ensures FewReached(f, li, [])
  {
    var visited: set<Block> := {};
    assert |visited| < 32 && forall b :: !ReachedFrom(f, [], b);
  }

  /** The query on two instructions of one function: a false answer is always right, and a true one is, unless the
      walk gave up at its limit or nothing but the start in the entry block was looked at and the other block
      is unreachable. */
  method IsPotentiallyReachable(f: Function, a: Block, i: nat, b: Block, j: nat, dt: Option<DomTree>,
                                li: Option<LoopInfo>)
    returns (r: bool)
    requires WellFormed(f) && EntryHasNoPreds(f) && a < |f.succ| && b < |f.succ|
    requires (li.Some? ==> ValidLoops(f, li.value)) && (dt.Some? ==> ValidDomTree(f, dt.value))
    ensures !r ==> !InstReaches(f, a, i, b, j)
    ensures r ==> InstReaches(f, a, i, b, j) || (a == ENTRY && !Reaches(f, ENTRY, b))
                  || (a != ENTRY && GaveUp(f, if a == b then f.succ[a] else [a]))
    ensures a == ENTRY != b ==> r
    ensures b == ENTRY != a ==> !r
    ensures !r && a != ENTRY && b != ENTRY ==> FewReached(f, li, if a == b then f.succ[a] else [a])
  {
    var worklist: seq<Block> := [];
    if a == b {
      if li.Some? && a in li.value.loopFor {
        assert OnCycle(f, a);
        return true;
      }
      if i <= j {
        return true;
      }
      if a == ENTRY {
        forall c | Edge(f, a, c) ensures !Reaches(f, c, b) { EntryIsFirst(f, c); }
        return false;
      }
      worklist := f.succ[a];
      if worklist == [] {
        NothingReached(f, li);
        return false;
      }
    } else {
      worklist := [a];
    }
    if a == ENTRY {
      if Reaches(f, a, b) { FirstEdge(f, a, b); }
      return true;
    }
    if b == ENTRY {
      forall c | Edge(f, a, c) ensures !Reaches(f, c, b) { EntryIsFirst(f, c); }
      return false;
    }
    r := IsPotentiallyReachableFromMany(f, worklist, b, dt, li);
    if !r {
      assert a != b ==> a in worklist;
      forall c | Edge(f, a, c) ensures !Reaches(f, c, b) {
        if Reaches(f, c, b) && a != b {
          ReachesSelf(f, a);
          ReachesEdge(f, a, a, c);
          ReachesTransitive(f, a, c, b);
        }
      }
    } else if AnyReaches(f, worklist, b) {
      var c :| c in worklist && Reaches(f, c, b);
      if a != b { FirstEdge(f, a, b); } else { assert Edge(f, a, c); }
    }
  }
}
