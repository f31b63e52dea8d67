// The states of the least relation, read from the other end of a path.
module CflMirror {
  import opened CflGraph
  import opened CflReach
  import opened CflGrammar

  /** The state of a path taken backwards: reads and writes trade places, and its first hop is the last. */
  ghost function StateBack(p: Path): MatchState
    requires p != []
  {
    var afterAlias := p[0].letter == Alias;
    if Takes(p, Reverse) then
      if Takes(p, Assign) then (if afterAlias then FlowToMemAliasReadWrite else FlowToReadWrite)
      else (if afterAlias then FlowToMemAliasWriteOnly else FlowToWriteOnly)
    else if Takes(p, Assign) then (if afterAlias then FlowFromMemAliasReadOnly else FlowFromReadOnly)
    else FlowFromMemAliasNoReadWrite
  }

  /** p is a grammar path from the far end of t that comes to its near end only once, to stop there. */
  ghost predicate SpellsBack(g: Graph, m: Mem, t: Triple, p: Path) {
    && p != [] && IsPath(g, m, t.to, p) && End(t.to, p) == t.from && t.to != t.from
    && InLanguage(p) && Avoids(p[..|p| - 1], t.from) && StateBack(p) == t.state
  }

  lemma ReversedHop(u: Node, p: Path, k: nat)
    requires k < |p|
    ensures |Reversed(u, p)| == |p|
    ensures Reversed(u, p)[k].letter == Flip(p[|p| - 1 - k].letter)
    ensures Reversed(u, p)[k].node == (if k == |p| - 1 then u else p[|p| - 2 - k].node)
  {
    assert Reversed(u, p)[k] == Hop(Flip(p[|p| - 1 - k].letter), NodeAt(u, p, |p| - 1 - k));
  }

  lemma TakesReversed(u: Node, p: Path, l: Letter)
    ensures Takes(Reversed(u, p), Flip(l)) <==> Takes(p, l)
  {
    var q, n := Reversed(u, p), |p|;
    if Takes(p, l) {
      var k :| 0 <= k < n && p[k].letter == l;
      ReversedHop(u, p, n - 1 - k);
    }
    if Takes(q, Flip(l)) {
      var k :| 0 <= k < |q| && q[k].letter == Flip(l);
      ReversedHop(u, p, k);
      assert p[n - 1 - k].letter == l;
    }
  }

  lemma StateOfReversed(u: Node, p: Path)
    requires p != []
    ensures |Reversed(u, p)| == |p|
    ensures StateOf(Reversed(u, p)) == StateBack(p)
    ensures StateBack(Reversed(u, p)) == StateOf(p)
  {
    TakesReversed(u, p, Assign);
    TakesReversed(u, p, Reverse);
    ReversedHop(u, p, 0);
    ReversedHop(u, p, |p| - 1);
  }

  /** Backwards, a path visits its start last instead of its end. */
  lemma ReversedAvoids(u: Node, p: Path, v: Node)
    requires p != []
    ensures |Reversed(u, p)| == |p|
    ensures u != v && Avoids(p[..|p| - 1], v) ==> Avoids(Reversed(u, p), v)
    ensures Avoids(p, v) ==> Avoids(Reversed(u, p)[..|p| - 1], v)
  {
    var q, n := Reversed(u, p), |p|;
    forall k | 0 <= k < n
      ensures |q| == n && q[k].node == if k == n - 1 then u else p[n - 2 - k].node
    {
      ReversedHop(u, p, k);
    }
    ReversedHop(u, p, 0);
    hide Reversed;
    if u != v && Avoids(p[..n - 1], v) {
      forall k | 0 <= k < n ensures q[k].node != v {
        if k < n - 1 { assert p[..n - 1][n - 2 - k].node != v; }
      }
    }
  }

  /** A state is recorded for two nodes exactly when a grammar path from the second to the first, not passing
      through the first on its way, has that state when taken backwards. A path and its mirror image may
      differ in whether they pass early through the node they must avoid, which is why states are not
      symmetric. */
  lemma RecordedIffSpelledBack(g: Graph, r: Reach, m: Mem, t: Triple)
    requires Least(g, r, m)
    ensures t in r <==> exists p :: SpellsBack(g, m, t, p)
  {
    NoSelfPairs(g, r, m);
    MemIsSymmetric(g, r, m);
    RecordedIffSpelled(g, r, m, t);
    hide StateOf, StateBack, IsPath, InLanguage, Reversed, Least, Avoids;
    if t in r {
      var p: Path :| Spells(g, m, t, p);
      SpelledTurnsBack(g, m, t, p);
    }
    if exists p :: SpellsBack(g, m, t, p) {
      var p :| SpellsBack(g, m, t, p);
      SpelledBackTurns(g, m, t, p);
    }
  }

  lemma SpelledTurnsBack(g: Graph, m: Mem, t: Triple, p: Path)
    requires Symmetric(m) && t.from != t.to && Spells(g, m, t, p)
    ensures SpellsBack(g, m, t, Reversed(t.from, p))
  {
    hide StateOf, StateBack, IsPath, InLanguage, Avoids;
    ReversedIsPath(g, m, t.from, p);
    StateOfReversed(t.from, p);
    ReversedAvoids(t.from, p, t.from);
  }

  lemma SpelledBackTurns(g: Graph, m: Mem, t: Triple, p: Path)
    requires Symmetric(m) && SpellsBack(g, m, t, p)
    ensures Spells(g, m, t, Reversed(t.to, p))
  {
    hide StateOf, StateBack, IsPath, InLanguage, Avoids;
    ReversedIsPath(g, m, t.to, p);
    StateOfReversed(t.to, p);
    ReversedAvoids(t.to, p, t.from);
  }

  // ------------------------------------------------- read-only and write-only

  predicate HasReadOnly(r: Reach, u: Node, v: Node) {
    Triple(u, v, FlowFromReadOnly) in r || Triple(u, v, FlowFromMemAliasReadOnly) in r
  }

  predicate HasWriteOnly(r: Reach, u: Node, v: Node) {
    Triple(u, v, FlowToWriteOnly) in r || Triple(u, v, FlowToMemAliasWriteOnly) in r
  }

  /** A path that only reads: reverse assignments and memory aliases. */
  ghost predicate Reads(p: Path) {
    InLanguage(p) && Takes(p, Reverse) && !Takes(p, Assign)
  }

  /** Without reverse assignments such a path is one memory alias. */
  lemma NoReadIsAlias(g: Graph, m: Mem, u: Node, p: Path)
    requires p != [] && IsPath(g, m, u, p) && InLanguage(p) && !Takes(p, Assign) && !Takes(p, Reverse)
    ensures (u, End(u, p)) in m
  {
    assert p[0].letter == Alias && (|p| > 1 ==> p[1].letter == Alias);
    assert HopAllowed(g, m, NodeAt(u, p, 0), p[0].letter, p[0].node);
  }

  lemma PartTakes(p: Path, lo: nat, hi: nat, l: Letter)
    requires lo <= hi <= |p| && Takes(p[lo..hi], l)
    ensures Takes(p, l)
  {
    var k :| 0 <= k < |p[lo..hi]| && p[lo..hi][k].letter == l;
    assert p[lo + k].letter == l;
  }

  lemma {:induction false} FirstVisit(p: Path, v: Node) returns (k: nat)
    requires !Avoids(p, v)
    ensures k < |p| && p[k].node == v && Avoids(p[..k], v)
    decreases |p|
  {
    var n := |p| - 1;
    assert p == p[..n] + [p[n]];
    if Avoids(p[..n], v) {
      k := n;
    } else {
      k := FirstVisit(p[..n], v);
      assert p[..n][..k] == p[..k];
    }
  }

  lemma LastVisit(p: Path, v: Node) returns (k: nat)
    ensures k <= |p| && (k > 0 ==> p[k - 1].node == v) && Avoids(p[k..], v)
  {
    k := |p|;
    while k > 0 && p[k - 1].node != v
      invariant k <= |p| && Avoids(p[k..], v)
    {
      assert p[k - 1..] == [p[k - 1]] + p[k..];
      k := k - 1;
    }
  }

  /** A path up to its first visit of its end. */
  lemma CutAtFirst(g: Graph, m: Mem, u: Node, p: Path) returns (q: Path)
    requires p != [] && IsPath(g, m, u, p) && InLanguage(p)
    ensures q != [] && IsPath(g, m, u, q) && InLanguage(q) && End(u, q) == End(u, p)
    ensures Avoids(q[..|q| - 1], End(u, p))
    ensures forall l :: Takes(q, l) ==> Takes(p, l)
  {
    var v := End(u, p);
    assert !Avoids(p, v) by { assert p[|p| - 1].node == v; }
    var k := FirstVisit(p, v);
    q := p[..k + 1];
    assert p[0..k + 1] == q && q[..|q| - 1] == p[..k] && q[k] == p[k];
    PathPrefix(g, m, u, p, k + 1);
    hide IsPath, InLanguage, Takes, Avoids;
    forall l | Takes(q, l) ensures Takes(p, l) { PartTakes(p, 0, k + 1, l); }
  }

  /** A path from its last visit of its start. */
  lemma CutAtLast(g: Graph, m: Mem, u: Node, p: Path) returns (q: Path)
    requires IsPath(g, m, u, p) && InLanguage(p) && End(u, p) != u
    ensures q != [] && IsPath(g, m, u, q) && InLanguage(q) && End(u, q) == End(u, p) && Avoids(q, u)
    ensures forall l :: Takes(q, l) ==> Takes(p, l)
  {
    var k := LastVisit(p, u);
    q := p[k..];
    assert p[k..|p|] == q && NodeAt(u, p, k) == u;
    PathSuffix(g, m, u, p, k);
    hide IsPath, InLanguage, Takes, Avoids;
    forall l | Takes(q, l) ensures Takes(p, l) { PartTakes(p, k, |p|, l); }
  }

  /** What reads from u to v is cut at its first visit of v: unless the two are memory aliases it still reads, and
      seen from v it writes. */
  lemma ReadIsWrittenBack(g: Graph, r: Reach, m: Mem, u: Node, v: Node, p: Path)
    requires Least(g, r, m) && (u, v) !in m && u != v
    requires p != [] && IsPath(g, m, u, p) && End(u, p) == v && Reads(p)
    ensures HasWriteOnly(r, v, u)
  {
    var q := CutAtFirst(g, m, u, p);
    if !Takes(q, Reverse) { NoReadIsAlias(g, m, u, q); }
    var t := Triple(v, u, StateBack(q));
    hide IsPath, InLanguage, Takes, Avoids, Least;
    assert SpellsBack(g, m, t, q);
    RecordedIffSpelledBack(g, r, m, t);
  }

  lemma ReadIsRead(g: Graph, r: Reach, m: Mem, u: Node, v: Node, p: Path)
    requires Least(g, r, m) && (u, v) !in m && u != v
    requires IsPath(g, m, u, p) && End(u, p) == v && Reads(p)
    ensures HasReadOnly(r, u, v)
  {
    var q := CutAtLast(g, m, u, p);
    if !Takes(q, Reverse) { NoReadIsAlias(g, m, u, q); }
    hide IsPath, InLanguage, Takes, Avoids, Closed;
    PathRecorded(g, r, m, u, q);
  }

  /** The symmetry that the summary of a function counts on: unless two nodes are memory aliases, one is read from
      the other exactly when it is written into from the other. */
  lemma ReadsMirrorWrites(g: Graph, r: Reach, m: Mem, u: Node, v: Node)
    requires Least(g, r, m) && (u, v) !in m
    ensures HasReadOnly(r, u, v) <==> HasWriteOnly(r, v, u)
  {
    hide Least, IsPath, InLanguage, Avoids, Takes;
    NoSelfPairs(g, r, m);
    if HasReadOnly(r, u, v) {
      var q :| (q == FlowFromReadOnly || q == FlowFromMemAliasReadOnly) && Triple(u, v, q) in r;
      RecordedIffSpelled(g, r, m, Triple(u, v, q));
      var p: Path :| Spells(g, m, Triple(u, v, q), p);
      ReadIsWrittenBack(g, r, m, u, v, p);
    }
    if HasWriteOnly(r, v, u) {
      var q :| (q == FlowToWriteOnly || q == FlowToMemAliasWriteOnly) && Triple(v, u, q) in r;
      RecordedIffSpelledBack(g, r, m, Triple(v, u, q));
      var p: Path :| SpellsBack(g, m, Triple(v, u, q), p);
      ReadIsRead(g, r, m, u, v, p);
    }
  }

  // --------------------------------------------------- and memory aliases

  const X0 := Node(0, 0)
  const Y0 := Node(1, 0)
  const A := Node(0, 1)
  const B := Node(1, 1)
  const C := Node(2, 0)

  /** X is assigned to Y, which makes *X and *Y memory aliases; *X and C are assigned to each other. */
  const ALIASED := Graph(map[
    0 := [NodeInfo([Y0], [], {}), NodeInfo([C], [C], {})],
    1 := [NodeInfo([], [X0], {}), NodeInfo([], [], {})],
    2 := [NodeInfo([A], [A], {})]])

  lemma AliasedEdges()
    ensures forall n :: HasNode(ALIASED, n) <==> n in {X0, Y0, A, B, C}
    ensures forall x, y :: Edge(ALIASED, x, y) <==> (x, y) in {(X0, Y0), (A, C), (C, A)}
    ensures WellFormed(ALIASED)
  {
    assert Info(ALIASED, X0) == NodeInfo([Y0], [], {}) && Info(ALIASED, A) == NodeInfo([C], [C], {});
    assert Info(ALIASED, Y0) == NodeInfo([], [X0], {}) && Info(ALIASED, B) == NodeInfo([], [], {});
    assert Info(ALIASED, C) == NodeInfo([A], [A], {});
  }

  lemma WrittenIntoA(r: Reach, m: Mem)
    requires Closed(ALIASED, r, m)
    ensures (A, B) in m && (B, A) in m && Triple(B, A, FlowToWriteOnly) in r
  {
    AliasedEdges();
    hide Edge, HasNode;
    assert Edge(ALIASED, X0, Y0) && Edge(ALIASED, A, C) && Edge(ALIASED, C, A);
    assert Triple(X0, Y0, FlowToWriteOnly) in r && Triple(Y0, X0, FlowFromReadOnly) in r;
    assert Processed(ALIASED, r, m, Triple(X0, Y0, FlowToWriteOnly));
    assert Processed(ALIASED, r, m, Triple(Y0, X0, FlowFromReadOnly));
    assert Below(X0) == A && Below(Y0) == B && HasNode(ALIASED, A) && HasNode(ALIASED, B);
    assert Triple(B, A, FlowFromMemAliasNoReadWrite) in r;
    assert Processed(ALIASED, r, m, Triple(B, A, FlowFromMemAliasNoReadWrite));
    assert Triple(B, C, FlowToWriteOnly) in r;
    assert Processed(ALIASED, r, m, Triple(B, C, FlowToWriteOnly));
  }

  lemma HopsOffA(m: Mem, x: Node, l: Letter, y: Node)
    requires (forall a, b :: (a, b) in m ==> a in {A, B} && b in {A, B}) && HopAllowed(ALIASED, m, x, l, y)
    ensures x == A && y != A ==> (if l == Alias then y == B else y == C)
    ensures x in {B, C} && y != A ==> x == B && l == Alias
  {
    AliasedEdges();
  }

  /** Off A, a grammar path from A to B is one memory alias. */
  lemma OneHopFromA(m: Mem, p: Path)
    requires forall x, y :: (x, y) in m ==> x in {A, B} && y in {A, B}
    requires p != [] && IsPath(ALIASED, m, A, p) && Avoids(p, A) && InLanguage(p) && End(A, p) == B
    ensures StateOf(p) == FlowFromMemAliasNoReadWrite
  {
    HopsOffA(m, NodeAt(A, p, 0), p[0].letter, p[0].node);
    if |p| >= 2 { HopsOffA(m, NodeAt(A, p, 1), p[1].letter, p[1].node); }
  }

  /** For memory aliases the symmetry fails: here B writes into A without A being read from B. */
  lemma WritesAreNotReads(r: Reach, m: Mem)
    requires Least(ALIASED, r, m)
    ensures WellFormed(ALIASED)
    ensures HasWriteOnly(r, B, A) && !HasReadOnly(r, A, B)
  {
    AliasedEdges();
    WrittenIntoA(r, m);
    hide Edge, HasNode;
    forall x, y | (x, y) in m ensures x in {A, B} && y in {A, B} {
      MemoryAliasIffRecordedAbove(ALIASED, r, m, x, y);
    }
    hide Least, IsPath, StateOf, InLanguage, Avoids;
    forall q | Triple(A, B, q) in r ensures q == FlowFromMemAliasNoReadWrite {
      RecordedIffSpelled(ALIASED, r, m, Triple(A, B, q));
      var p: Path :| Spells(ALIASED, m, Triple(A, B, q), p);
      OneHopFromA(m, p);
    }
  }
}
