// Control-flow graphs of functions, and walks in them.
module CfgGraph {

  type Block = nat

  /** Block 0 is the entry; succ lists the successors of each block in order, with repetitions. */
  datatype Function = Function(succ: seq<seq<Block>>)

  const ENTRY: Block := 0

  ghost predicate WellFormed(f: Function) {
    |f.succ| > 0 && forall b, i :: 0 <= b < |f.succ| && 0 <= i < |f.succ[b]| ==> f.succ[b][i] < |f.succ|
  }

  predicate InFunction(f: Function, b: Block) {
    b < |f.succ|
  }

  predicate Edge(f: Function, a: Block, b: Block) {
    a < |f.succ| && b in f.succ[a]
  }

  ghost predicate IsWalk(f: Function, w: seq<Block>) {
    w != [] && forall k :: 0 <= k < |w| - 1 ==> Edge(f, w[k], w[k + 1])
  }

  ghost predicate IsWalkFromTo(f: Function, w: seq<Block>, a: Block, b: Block) {
    IsWalk(f, w) && w[0] == a && w[|w| - 1] == b
  }

  ghost predicate Reaches(f: Function, a: Block, b: Block) {
    exists w :: IsWalkFromTo(f, w, a, b)
  }

  /** Every walk from the entry to b passes through a. */
  ghost predicate Dominates(f: Function, a: Block, b: Block) {
    forall w :: IsWalkFromTo(f, w, ENTRY, b) ==> a in w
  }

  lemma ReachesSelf(f: Function, a: Block)
    ensures Reaches(f, a, a)
  {
    assert IsWalkFromTo(f, [a], a, a);
  }

  lemma ReachesEdge(f: Function, a: Block, b: Block, c: Block)
    requires Reaches(f, a, b) && Edge(f, b, c)
    ensures Reaches(f, a, c)
  {
    var w :| IsWalkFromTo(f, w, a, b);
    var w' := w + [c];
    forall k | 0 <= k < |w'| - 1 ensures Edge(f, w'[k], w'[k + 1]) {}
    assert IsWalkFromTo(f, w', a, c);
  }

  lemma ReachesTransitive(f: Function, a: Block, b: Block, c: Block)
    requires Reaches(f, a, b) && Reaches(f, b, c)
    ensures Reaches(f, a, c)
  {
    var w :| IsWalkFromTo(f, w, a, b);
    var v :| IsWalkFromTo(f, v, b, c);
    var x := w + v[1..];
    forall k | 0 <= k < |x| - 1 ensures Edge(f, x[k], x[k + 1]) {
      if k >= |w| - 1 { assert x[k] == v[k - (|w| - 1)] && x[k + 1] == v[k + 1 - (|w| - 1)]; }
    }
    assert x[|x| - 1] == c;
    assert IsWalkFromTo(f, x, a, c);
  }

  /** A walk that starts in a set closed under edges stays in it. */
  lemma {:induction false} ClosedUnderWalks(f: Function, s: set<Block>, w: seq<Block>, k: nat)
    requires IsWalk(f, w) && w[0] in s && k < |w|
    requires forall a, b :: a in s && Edge(f, a, b) ==> b in s
    ensures w[k] in s
  {
    if k > 0 { ClosedUnderWalks(f, s, w, k - 1); }
  }
}
