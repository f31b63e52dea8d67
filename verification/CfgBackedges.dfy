// FindFunctionBackedges: an iterative depth-first search that reports the edges
// leading back onto its own stack (src/lib/Analysis/CFG.cpp).
module CfgBackedges {
  import opened CfgGraph

  /** A block on the stack with the position of its next successor. */
  datatype Frame = Frame(block: Block, next: nat)

  // -------------------------------------------------------- specification

  ghost predicate IsCycle(f: Function, w: seq<Block>) {
    IsWalk(f, w) && |w| > 1 && w[0] == w[|w| - 1]
  }

  ghost predicate Uses(w: seq<Block>, edges: seq<(Block, Block)>) {
    exists k :: 0 <= k < |w| - 1 && (w[k], w[k + 1]) in edges
  }

  /** Every cycle the entry can reach contains one of the edges. */
  ghost predicate BreaksCycles(f: Function, edges: seq<(Block, Block)>) {
    forall w :: IsCycle(f, w) && Reaches(f, ENTRY, w[0]) ==> Uses(w, edges)
  }

  /** The edge lies on a cycle that the entry can reach. */
  ghost predicate ClosesCycle(f: Function, e: (Block, Block)) {
    Edge(f, e.0, e.1) && Reaches(f, ENTRY, e.0) && Reaches(f, e.1, e.0)
  }

  /** An edge of the reachable part whose target dominates its source. */
  ghost predicate IsNaturalBackedge(f: Function, e: (Block, Block)) {
    Edge(f, e.0, e.1) && Reaches(f, ENTRY, e.0) && Dominates(f, e.1, e.0)
  }

  /** Every cycle the entry can reach contains an edge back to a dominator. */
  ghost predicate Reducible(f: Function) {
    forall w :: IsCycle(f, w) && Reaches(f, ENTRY, w[0]) ==> GoesBack(f, w)
  }

  ghost predicate GoesBack(f: Function, w: seq<Block>) {
    exists k :: 0 <= k < |w| - 1 && Dominates(f, w[k + 1], w[k])
  }

  ghost predicate Distinct(w: seq<Block>) {
    forall i, j :: 0 <= i < j < |w| ==> w[i] != w[j]
  }

  /** The edge leads back onto a walk from the entry without repetitions. */
  ghost predicate OnSimpleWalk(f: Function, e: (Block, Block)) {
    Edge(f, e.0, e.1) && exists w :: IsWalkFromTo(f, w, ENTRY, e.0) && Distinct(w) && e.1 in w
  }

  /** Some walk from the entry to b keeps off s. */
  ghost predicate ReachedOff(f: Function, s: seq<Block>, b: Block) {
    exists w :: IsWalkFromTo(f, w, ENTRY, b) && Off(w, s)
  }

  ghost predicate Off(w: seq<Block>, s: seq<Block>) {
    forall b :: b in w ==> b !in s
  }

  // ------------------------------------------------------ search invariant

  ghost function Blocks(stack: seq<Frame>): set<Block> {
    set fr | fr in stack :: fr.block
  }

  ghost function Elems(s: seq<Block>): set<Block> {
    set b | b in s
  }

  /** Each frame's block was entered through the successor its parent consumed last. */
  ghost predicate Linked(f: Function, stack: seq<Frame>) {
    && (forall k :: 0 <= k < |stack| ==> stack[k].block < |f.succ| && stack[k].next <= |f.succ[stack[k].block]|)
    && (forall i, j :: 0 <= i < j < |stack| ==> stack[i].block != stack[j].block)
    && (forall k :: 0 <= k < |stack| - 1 ==>
          stack[k].next > 0 && f.succ[stack[k].block][stack[k].next - 1] == stack[k + 1].block)
  }

  /** A consumed successor is finished, reported, or the next block on the stack. */
  ghost predicate Consumed(f: Function, stack: seq<Frame>, finished: seq<Block>, result: seq<(Block, Block)>) {
    forall k, j :: 0 <= k < |stack| && 0 <= j < stack[k].next
                   && stack[k].block < |f.succ| && j < |f.succ[stack[k].block]| ==>
      SuccessorHandled(f, stack, finished, result, k, j)
  }

  ghost predicate SuccessorHandled(f: Function, stack: seq<Frame>, finished: seq<Block>, result: seq<(Block, Block)>,
                                   k: nat, j: nat)
    requires k < |stack| && stack[k].block < |f.succ| && j < |f.succ[stack[k].block]|
  {
    var v := f.succ[stack[k].block][j];
    v in finished || (stack[k].block, v) in result
    || (k + 1 < |stack| && j == stack[k].next - 1 && v == stack[k + 1].block)
  }

  /** An unreported edge out of a finished block leads to a block that finished earlier. */
  ghost predicate FinishOrder(f: Function, finished: seq<Block>, result: seq<(Block, Block)>) {
    && (forall i :: 0 <= i < |finished| ==> finished[i] < |f.succ|)
    && (forall i, j :: 0 <= i < j < |finished| ==> finished[i] != finished[j])
    && (forall i, v: nat :: 0 <= i < |finished| && Edge(f, finished[i], v) ==>
          (finished[i], v) in result || v in finished[..i])
  }

  ghost predicate Rooted(stack: seq<Frame>) {
    stack != [] ==> stack[0].block == ENTRY
  }

  /** Each finished block was reached over blocks that finished no earlier than it. */
  ghost predicate ReachedLate(f: Function, finished: seq<Block>) {
    forall i :: 0 <= i < |finished| ==> ReachedOff(f, finished[..i], finished[i])
  }

  ghost predicate Searching(f: Function, visited: set<Block>, stack: seq<Frame>, inStack: set<Block>,
                            finished: seq<Block>, result: seq<(Block, Block)>) {
    && Linked(f, stack) && Consumed(f, stack, finished, result) && FinishOrder(f, finished, result)
    && inStack == Blocks(stack) && visited == inStack + Elems(finished) && inStack !! Elems(finished)
    && ENTRY in visited
    && (forall b :: b in visited ==> b < |f.succ| && Reaches(f, ENTRY, b))
    && (forall e :: e in result ==> ClosesCycle(f, e) && e.1 in visited && OnSimpleWalk(f, e))
    && Rooted(stack) && ReachedLate(f, finished)
  }

  /** Blocks further up the stack are reached from those below them. */
  lemma {:induction false} StackReaches(f: Function, stack: seq<Frame>, i: nat, j: nat)
    requires Linked(f, stack) && i <= j < |stack|
    ensures Reaches(f, stack[i].block, stack[j].block)
    decreases j
  {
    if i == j {
      ReachesSelf(f, stack[i].block);
    } else {
      StackReaches(f, stack, i, j - 1);
      assert Edge(f, stack[j - 1].block, stack[j].block);
      ReachesEdge(f, stack[i].block, stack[j - 1].block, stack[j].block);
    }
  }

  function StackWalk(stack: seq<Frame>): (w: seq<Block>)
    ensures |w| == |stack| && forall k :: 0 <= k < |w| ==> w[k] == stack[k].block
  {
    seq(|stack|, k requires 0 <= k < |stack| => stack[k].block)
  }

  /** The stack is a walk from the entry without repetitions. */
  lemma StackIsWalk(f: Function, stack: seq<Frame>)
    requires Linked(f, stack) && Rooted(stack) && stack != []
    ensures IsWalkFromTo(f, StackWalk(stack), ENTRY, stack[|stack| - 1].block) && Distinct(StackWalk(stack))
    ensures forall b :: b in StackWalk(stack) <==> b in Blocks(stack)
  {
    var w := StackWalk(stack);
    forall k | 0 <= k < |w| - 1 ensures Edge(f, w[k], w[k + 1]) {}
    forall b ensures b in w <==> b in Blocks(stack) {
      if b in w {
        var k :| 0 <= k < |w| && w[k] == b;
        assert stack[k] in stack;
      }
      if b in Blocks(stack) {
        var k :| 0 <= k < |stack| && stack[k].block == b;
        assert w[k] == b;
      }
    }
  }

  lemma BackedgeOnSimpleWalk(f: Function, stack: seq<Frame>, v: Block)
    requires Linked(f, stack) && Rooted(stack) && AtSuccessor(f, stack, v) && v in Blocks(stack)
    ensures OnSimpleWalk(f, (stack[|stack| - 1].block, v))
  {
    StackIsWalk(f, stack);
    assert IsWalkFromTo(f, StackWalk(stack), ENTRY, stack[|stack| - 1].block);
  }

  /** The stack reaches its top off everything finished. */
  lemma PopReachedLate(f: Function, stack: seq<Frame>, finished: seq<Block>)
    requires Linked(f, stack) && Rooted(stack) && stack != [] && Blocks(stack) !! Elems(finished)
    requires ReachedLate(f, finished)
    ensures ReachedLate(f, finished + [stack[|stack| - 1].block])
  {
    StackIsWalk(f, stack);
    var b, w := stack[|stack| - 1].block, StackWalk(stack);
    forall c | c in w ensures c !in finished { assert c in Blocks(stack); }
    assert ReachedOff(f, finished, b) by { assert IsWalkFromTo(f, w, ENTRY, b) && Off(w, finished); }
    hide ReachedOff;
    forall i | 0 <= i < |finished| + 1 ensures ReachedOff(f, (finished + [b])[..i], (finished + [b])[i]) {
      if i < |finished| {
        assert (finished + [b])[..i] == finished[..i];
      } else {
        assert (finished + [b])[..i] == finished;
      }
    }
  }

  /** The stack with its top frame's iterator advanced. */
  function Bumped(stack: seq<Frame>): seq<Frame>
    requires stack != []
  {
    var n := |stack| - 1;
    stack[n := Frame(stack[n].block, stack[n].next + 1)]
  }

  /** The successor under the top frame's iterator. */
  predicate AtSuccessor(f: Function, stack: seq<Frame>, v: Block) {
    stack != []
    && var top := stack[|stack| - 1];
       top.block < |f.succ| && top.next < |f.succ[top.block]| && f.succ[top.block][top.next] == v
  }

  lemma BumpedBlocks(stack: seq<Frame>)
    requires stack != []
    ensures Blocks(Bumped(stack)) == Blocks(stack)
    ensures forall k :: 0 <= k < |stack| ==> Bumped(stack)[k].block == stack[k].block
  {
    var s := Bumped(stack);
    forall b ensures b in Blocks(s) <==> b in Blocks(stack) {
      if b in Blocks(stack) {
        var k :| 0 <= k < |stack| && stack[k].block == b;
        assert s[k] in s;
      }
      if b in Blocks(s) {
        var k :| 0 <= k < |s| && s[k].block == b;
        assert stack[k] in stack;
      }
    }
  }

  lemma BumpKeepsLinks(f: Function, stack: seq<Frame>, v: Block)
    requires Linked(f, stack) && AtSuccessor(f, stack, v)
    ensures Linked(f, Bumped(stack))
  {
  }

  lemma PassConsumes(f: Function, stack: seq<Frame>, finished: seq<Block>, result: seq<(Block, Block)>,
                     more: seq<(Block, Block)>, v: Block)
    requires Consumed(f, stack, finished, result) && AtSuccessor(f, stack, v)
    requires v in finished || (stack[|stack| - 1].block, v) in more
    requires forall e :: e in result ==> e in more
    ensures Consumed(f, Bumped(stack), finished, more)
  {
    var n, s := |stack| - 1, Bumped(stack);
    forall k: nat, j: nat | k < |s| && j < s[k].next && s[k].block < |f.succ| && j < |f.succ[s[k].block]|
      ensures SuccessorHandled(f, s, finished, more, k, j)
    {
      if !(k == n && j == stack[n].next) { assert SuccessorHandled(f, stack, finished, result, k, j); }
    }
  }

  lemma ReportKeepsOrder(f: Function, finished: seq<Block>, result: seq<(Block, Block)>, more: seq<(Block, Block)>)
    requires FinishOrder(f, finished, result) && forall e :: e in result ==> e in more
    ensures FinishOrder(f, finished, more)
  {
  }

  lemma BackedgeClosesCycle(f: Function, stack: seq<Frame>, v: Block)
    requires Linked(f, stack) && AtSuccessor(f, stack, v) && v in Blocks(stack)
    requires Reaches(f, ENTRY, stack[|stack| - 1].block)
    ensures ClosesCycle(f, (stack[|stack| - 1].block, v))
  {
    hide Reaches;
    var i :| 0 <= i < |stack| && stack[i].block == v;
    StackReaches(f, stack, i, |stack| - 1);
  }

  /** A successor already visited: finished before, or on the stack and so reported. */
  lemma PassVisited(f: Function, visited: set<Block>, stack: seq<Frame>, inStack: set<Block>,
                    finished: seq<Block>, result: seq<(Block, Block)>, v: Block)
    requires Searching(f, visited, stack, inStack, finished, result) && AtSuccessor(f, stack, v) && v in visited
    ensures var e := (stack[|stack| - 1].block, v);
            Searching(f, visited, Bumped(stack), inStack, finished, if v in inStack then result + [e] else result)
  {
    var n := |stack| - 1;
    var e := (stack[n].block, v);
    var r := if v in inStack then result + [e] else result;
    BumpedBlocks(stack);
    BumpKeepsLinks(f, stack, v);
    assert stack[n] in stack && stack[n].block in Blocks(stack);
    hide Linked, Reaches, ClosesCycle, Consumed, FinishOrder, Bumped, OnSimpleWalk, ReachedLate;
    if v in inStack {
      BackedgeClosesCycle(f, stack, v);
      BackedgeOnSimpleWalk(f, stack, v);
    }
    PassConsumes(f, stack, finished, result, r, v);
    ReportKeepsOrder(f, finished, result, r);
  }

  lemma PushLinks(f: Function, stack: seq<Frame>, v: Block)
    requires Linked(f, stack) && AtSuccessor(f, stack, v) && v < |f.succ| && v !in Blocks(stack)
    ensures Linked(f, Bumped(stack) + [Frame(v, 0)])
    ensures Blocks(Bumped(stack) + [Frame(v, 0)]) == Blocks(stack) + {v}
  {
    var s' := Bumped(stack) + [Frame(v, 0)];
    BumpedBlocks(stack);
    forall k | 0 <= k < |stack| ensures stack[k].block != v { assert stack[k].block in Blocks(stack); }
    assert Blocks(s') == Blocks(Bumped(stack)) + {v};
  }

  lemma PushConsumes(f: Function, stack: seq<Frame>, finished: seq<Block>, result: seq<(Block, Block)>, v: Block)
    requires Consumed(f, stack, finished, result) && AtSuccessor(f, stack, v)
    ensures Consumed(f, Bumped(stack) + [Frame(v, 0)], finished, result)
  {
    var n, s := |stack| - 1, Bumped(stack) + [Frame(v, 0)];
    forall k: nat, j: nat | k < |s| && j < s[k].next && s[k].block < |f.succ| && j < |f.succ[s[k].block]|
      ensures SuccessorHandled(f, s, finished, result, k, j)
    {
      if !(k == n && j == stack[n].next) { assert SuccessorHandled(f, stack, finished, result, k, j); }
    }
  }

  /** A successor not visited yet goes on the stack. */
  lemma PushNew(f: Function, visited: set<Block>, stack: seq<Frame>, inStack: set<Block>,
                finished: seq<Block>, result: seq<(Block, Block)>, v: Block)
    requires WellFormed(f)
    requires Searching(f, visited, stack, inStack, finished, result) && AtSuccessor(f, stack, v) && v !in visited
    ensures Searching(f, visited + {v}, Bumped(stack) + [Frame(v, 0)], inStack + {v}, finished, result)
  {
    var n := |stack| - 1;
    assert stack[n] in stack && stack[n].block in Blocks(stack);
    assert Edge(f, stack[n].block, v);
    BumpedBlocks(stack);
    hide Linked, Consumed, Reaches, ClosesCycle, FinishOrder, OnSimpleWalk, ReachedLate;
    ReachesEdge(f, ENTRY, stack[n].block, v);
    PushLinks(f, stack, v);
    PushConsumes(f, stack, finished, result, v);
  }

  lemma PopLinks(f: Function, stack: seq<Frame>)
    requires Linked(f, stack) && stack != []
    ensures Linked(f, stack[..|stack| - 1])
    ensures Blocks(stack[..|stack| - 1]) == Blocks(stack) - {stack[|stack| - 1].block}
    ensures stack[|stack| - 1].block in Blocks(stack)
  {
    var n := |stack| - 1;
    var s := stack[..n];
    assert stack == s + [stack[n]];
    forall fr | fr in s ensures fr.block != stack[n].block {}
    assert stack[n] in stack;
    forall b ensures b in Blocks(s) <==> b in Blocks(stack) && b != stack[n].block {}
  }

  lemma PopConsumes(f: Function, stack: seq<Frame>, finished: seq<Block>, result: seq<(Block, Block)>)
    requires Consumed(f, stack, finished, result) && stack != []
    ensures Consumed(f, stack[..|stack| - 1], finished + [stack[|stack| - 1].block], result)
  {
    var n := |stack| - 1;
    var s, fin := stack[..n], finished + [stack[n].block];
    forall k: nat, j: nat | k < |s| && j < s[k].next && s[k].block < |f.succ| && j < |f.succ[s[k].block]|
      ensures SuccessorHandled(f, s, fin, result, k, j)
    {
      assert SuccessorHandled(f, stack, finished, result, k, j);
    }
  }

  lemma PopKeepsOrder(f: Function, stack: seq<Frame>, finished: seq<Block>, result: seq<(Block, Block)>)
    requires Linked(f, stack) && Consumed(f, stack, finished, result) && FinishOrder(f, finished, result) && stack != []
    requires stack[|stack| - 1].next == |f.succ[stack[|stack| - 1].block]| && stack[|stack| - 1].block !in finished
    ensures FinishOrder(f, finished + [stack[|stack| - 1].block], result)
  {
    var n := |stack| - 1;
    var b := stack[n].block;
    var fin := finished + [b];
    forall i, v: nat | 0 <= i < |fin| && Edge(f, fin[i], v) ensures (fin[i], v) in result || v in fin[..i] {
      if i < |finished| {
        assert fin[..i] == finished[..i];
      } else {
        var j :| 0 <= j < |f.succ[b]| && f.succ[b][j] == v;
        assert SuccessorHandled(f, stack, finished, result, n, j);
        assert fin[..i] == finished;
      }
    }
  }

  /** A block whose successors are all consumed is finished. */
  lemma PopDone(f: Function, visited: set<Block>, stack: seq<Frame>, inStack: set<Block>,
                finished: seq<Block>, result: seq<(Block, Block)>)
    requires Searching(f, visited, stack, inStack, finished, result) && stack != []
    requires stack[|stack| - 1].next == |f.succ[stack[|stack| - 1].block]|
    ensures var b := stack[|stack| - 1].block;
            Searching(f, visited, stack[..|stack| - 1], inStack - {b}, finished + [b], result)
  {
    var b := stack[|stack| - 1].block;
    PopLinks(f, stack);
    PopConsumes(f, stack, finished, result);
    assert b !in Elems(finished);
    PopKeepsOrder(f, stack, finished, result);
    PopReachedLate(f, stack, finished);
    hide Linked, Consumed, FinishOrder, ClosesCycle, Reaches, OnSimpleWalk, ReachedLate;
    assert Elems(finished + [b]) == Elems(finished) + {b};
  }

  // ------------------------------------------------------------ the search

  /** The inner loop: consume successors of the top block up to the first unvisited one. */
  method Advance(f: Function, visited: set<Block>, stack: seq<Frame>, inStack: set<Block>,
                 ghost finished: seq<Block>, result: seq<(Block, Block)>)
    returns (visited': set<Block>, stack': seq<Frame>, result': seq<(Block, Block)>, foundNew: bool, bb: Block)
    requires WellFormed(f) && stack != []
    requires Searching(f, visited, stack, inStack, finished, result)
    ensures |stack'| == |stack| && stack'[|stack| - 1].block == stack[|stack| - 1].block
    ensures if foundNew
            then bb !in visited && bb < |f.succ| && visited' == visited + {bb}
                 && Searching(f, visited', stack' + [Frame(bb, 0)], inStack + {bb}, finished, result')
            else visited' == visited && Searching(f, visited, stack', inStack, finished, result')
                 && stack'[|stack| - 1].next == |f.succ[stack[|stack| - 1].block]|
  {
    var parent := stack[|stack| - 1].block;
    visited', stack', result', foundNew, bb := visited, stack, result, false, parent;
    while stack'[|stack| - 1].next < |f.succ[parent]|
      invariant |stack'| == |stack| && stack'[|stack| - 1].block == parent
      invariant Searching(f, visited, stack', inStack, finished, result')
      invariant visited' == visited
      decreases |f.succ[parent]| - stack'[|stack| - 1].next
    {
      bb := f.succ[parent][stack'[|stack| - 1].next];
      if bb !in visited {
        PushNew(f, visited, stack', inStack, finished, result', bb);
        visited', stack', foundNew := visited + {bb}, Bumped(stack'), true;
        return;
      }
      PassVisited(f, visited, stack', inStack, finished, result', bb);
      stack' := Bumped(stack');
      if bb in inStack {
        result' := result' + [(parent, bb)];
      }
    }
  }

  /** The reported edges are exactly edges back onto the search's own stack, so each closes a
      cycle; without them nothing the entry reaches lies on a cycle. */
  method FindFunctionBackedges(f: Function) returns (result: seq<(Block, Block)>)
    requires WellFormed(f)
    ensures BreaksCycles(f, result)
    ensures forall e :: e in result ==> ClosesCycle(f, e)
    ensures forall e :: IsNaturalBackedge(f, e) ==> e in result
    ensures Reducible(f) <==> forall e :: e in result ==> IsNaturalBackedge(f, e)
  {
    result := [];
    if f.succ[ENTRY] == [] {
      LonelyEntry(f);
      return;
    }
    var visited, inStack := {ENTRY}, {ENTRY};
    var stack := [Frame(ENTRY, 0)];
    ghost var finished: seq<Block> := [];
    ghost var all := set b | 0 <= b < |f.succ| && InFunction(f, b);
    ReachesSelf(f, ENTRY);
    assert Blocks(stack) == {ENTRY};
    while stack != []
      invariant Searching(f, visited, stack, inStack, finished, result)
      decreases all - visited, |stack|
    {
      var parent := stack[|stack| - 1].block;
      var foundNew, bb;
      ghost var before := visited;
      visited, stack, result, foundNew, bb := Advance(f, visited, stack, inStack, finished, result);
      if foundNew {
        assert bb in all - before;
        inStack := inStack + {bb};
        stack := stack + [Frame(bb, 0)];
      } else {
        PopDone(f, visited, stack, inStack, finished, result);
        inStack := inStack - {parent};
        stack := stack[..|stack| - 1];
        finished := finished + [parent];
      }
    }
    SearchBreaksCycles(f, visited, finished, result);
    NaturalAreReported(f, visited, finished, result);
    ReducibleIff(f, result);
  }

  lemma SearchedIsClosed(f: Function, visited: set<Block>, finished: seq<Block>, result: seq<(Block, Block)>)
    requires Searching(f, visited, [], {}, finished, result)
    ensures forall a, b :: a in visited && Edge(f, a, b) ==> b in visited
    ensures forall b :: Reaches(f, ENTRY, b) ==> b in finished
  {
    forall a, b | a in visited && Edge(f, a, b) ensures b in visited {
      var i := IndexOf(finished, a);
      if (a, b) in result { assert (a, b).1 in visited; }
    }
    forall b | Reaches(f, ENTRY, b) ensures b in finished {
      var v :| IsWalkFromTo(f, v, ENTRY, b);
      ClosedUnderWalks(f, visited, v, |v| - 1);
    }
  }

  /** A dominator lies on the walk its block was reached by, so it finishes no earlier, and the edge back to
      it is reported. */
  lemma NaturalAreReported(f: Function, visited: set<Block>, finished: seq<Block>, result: seq<(Block, Block)>)
    requires Searching(f, visited, [], {}, finished, result)
    ensures forall e :: IsNaturalBackedge(f, e) ==> e in result
  {
    SearchedIsClosed(f, visited, finished, result);
    forall e | IsNaturalBackedge(f, e) ensures e in result {
      var i := IndexOf(finished, e.0);
      assert ReachedOff(f, finished[..i], finished[i]);
      var w :| IsWalkFromTo(f, w, ENTRY, e.0) && Off(w, finished[..i]);
      assert e.1 in w;
      assert (e.0, e.1) == e;
    }
  }

  /** On a reducible graph an edge back onto a simple walk goes back to a dominator: no other edge of the
      cycle can. */
  lemma ReportedIsNatural(f: Function, e: (Block, Block))
    requires Reducible(f) && OnSimpleWalk(f, e)
    ensures IsNaturalBackedge(f, e)
  {
    var w :| IsWalkFromTo(f, w, ENTRY, e.0) && Distinct(w) && e.1 in w;
    var i :| 0 <= i < |w| && w[i] == e.1;
    var c := w[i..] + [e.1];
    CycleOfWalk(f, w, i, e);
    assert GoesBack(f, c);
    var k :| 0 <= k < |c| - 1 && Dominates(f, c[k + 1], c[k]);
    assert forall j :: i <= j < |w| ==> c[j - i] == w[j];
    if k < |c| - 2 { NextDoesNotDominate(f, w, i + k); }
  }

  /** On a walk without repetitions no block is dominated by the next. */
  lemma NextDoesNotDominate(f: Function, w: seq<Block>, j: nat)
    requires IsWalk(f, w) && w[0] == ENTRY && Distinct(w) && j + 1 < |w|
    ensures !Dominates(f, w[j + 1], w[j])
  {
    WalkPrefix(f, w, j);
    assert IsWalkFromTo(f, w[..j + 1], ENTRY, w[j]) && w[j + 1] !in w[..j + 1];
  }

  lemma CycleOfWalk(f: Function, w: seq<Block>, i: nat, e: (Block, Block))
    requires IsWalkFromTo(f, w, ENTRY, e.0) && i < |w| && w[i] == e.1 && Edge(f, e.0, e.1)
    ensures IsCycle(f, w[i..] + [e.1]) && Reaches(f, ENTRY, e.1) && Reaches(f, ENTRY, e.0)
  {
    var c := w[i..] + [e.1];
    forall k | 0 <= k < |c| - 1 ensures Edge(f, c[k], c[k + 1]) {
      if k < |c| - 2 { assert Edge(f, w[i + k], w[i + k + 1]); }
    }
    WalkPrefix(f, w, i);
  }

  lemma WalkPrefix(f: Function, w: seq<Block>, i: nat)
    requires IsWalk(f, w) && i < |w|
    ensures IsWalkFromTo(f, w[..i + 1], w[0], w[i])
  {
    var v := w[..i + 1];
    forall k | 0 <= k < |v| - 1 ensures Edge(f, v[k], v[k + 1]) { assert Edge(f, w[k], w[k + 1]); }
  }

  lemma ReducibleIff(f: Function, result: seq<(Block, Block)>)
    requires BreaksCycles(f, result) && forall e :: e in result ==> OnSimpleWalk(f, e)
    ensures Reducible(f) <==> forall e :: e in result ==> IsNaturalBackedge(f, e)
  {
    if Reducible(f) {
      forall e | e in result ensures IsNaturalBackedge(f, e) { ReportedIsNatural(f, e); }
    }
    if forall e :: e in result ==> IsNaturalBackedge(f, e) {
      forall w | IsCycle(f, w) && Reaches(f, ENTRY, w[0]) ensures GoesBack(f, w) {
        assert Uses(w, result);
        var k :| 0 <= k < |w| - 1 && (w[k], w[k + 1]) in result;
        assert IsNaturalBackedge(f, (w[k], w[k + 1]));
      }
    }
  }

  function IndexOf(s: seq<Block>, b: Block): (i: nat)
    requires b in s
    ensures i < |s| && s[i] == b
  {
    if s[0] == b then 0 else IndexOf(s[1..], b) + 1
  }

  /** Along unreported edges finishing positions go down. */
  lemma {:induction false} WalkGoesDown(f: Function, finished: seq<Block>, result: seq<(Block, Block)>,
                                        w: seq<Block>, k: nat)
    requires FinishOrder(f, finished, result) && IsWalk(f, w) && k < |w| && w[0] in finished && !Uses(w, result)
    ensures w[k] in finished && IndexOf(finished, w[k]) + k <= IndexOf(finished, w[0])
  {
    if k > 0 {
      WalkGoesDown(f, finished, result, w, k - 1);
      var i := IndexOf(finished, w[k - 1]);
      assert Edge(f, w[k - 1], w[k - 1 + 1]);
      assert (w[k - 1], w[k - 1 + 1]) !in result;
      assert w[k] in finished[..i];
      var j :| 0 <= j < i && finished[j] == w[k];
      assert IndexOf(finished, w[k]) == j;
    }
  }

  lemma SearchBreaksCycles(f: Function, visited: set<Block>, finished: seq<Block>, result: seq<(Block, Block)>)
    requires Searching(f, visited, [], {}, finished, result)
    ensures BreaksCycles(f, result)
  {
    SearchedIsClosed(f, visited, finished, result);
    forall w | IsCycle(f, w) && Reaches(f, ENTRY, w[0]) ensures Uses(w, result) {
      if !Uses(w, result) { WalkGoesDown(f, finished, result, w, |w| - 1); }
    }
  }

  lemma LonelyEntry(f: Function)
    requires WellFormed(f) && f.succ[ENTRY] == []
    ensures BreaksCycles(f, []) && Reducible(f)
    ensures forall e :: !IsNaturalBackedge(f, e)
  {
    forall b | Reaches(f, ENTRY, b) ensures b == ENTRY {
      var v :| IsWalkFromTo(f, v, ENTRY, b);
      ClosedUnderWalks(f, {ENTRY}, v, |v| - 1);
    }
    forall w | IsCycle(f, w) ensures !Reaches(f, ENTRY, w[0]) { assert Edge(f, w[0], w[0 + 1]); }
  }
}
