// What the least relations mean: a triple is recorded exactly when a path of the
// alias grammar joins its nodes, its state says which edges the path used, and
// with states ignored the relation is symmetric.
module CflGrammar {
  import opened Options
  import opened CflGraph
  import opened CflReach

  /** A path takes assignments forwards, assignments backwards, and memory aliases. */
  datatype Letter = Assign | Reverse | Alias

  datatype Hop = Hop(letter: Letter, node: Node)

  type Path = seq<Hop>

  function NodeAt(u: Node, p: Path, k: nat): Node
    requires k <= |p|
  {
    if k == 0 then u else p[k - 1].node
  }

  function End(u: Node, p: Path): Node {
    NodeAt(u, p, |p|)
  }

  predicate HopAllowed(g: Graph, m: Mem, x: Node, l: Letter, y: Node) {
    match l
    case Assign => Edge(g, x, y)
    case Reverse => Edge(g, y, x)
    case Alias => (x, y) in m
  }

  ghost predicate IsPath(g: Graph, m: Mem, u: Node, p: Path) {
    forall k :: 0 <= k < |p| ==> HopAllowed(g, m, NodeAt(u, p, k), p[k].letter, p[k].node)
  }

  /** (Alias? Reverse)* Alias? (Assign Alias?)*: no assignment before a reverse
      assignment, and no two memory aliases in a row. */
  ghost predicate InLanguage(p: Path) {
    && (forall i, j :: 0 <= i < j < |p| && p[i].letter == Assign ==> p[j].letter != Reverse)
    && (forall i, j :: 0 <= i && j == i + 1 && j < |p| ==> !(p[i].letter == Alias && p[j].letter == Alias))
  }

  predicate Takes(p: Path, l: Letter) {
    exists k :: 0 <= k < |p| && p[k].letter == l
  }

  /** The state a path leaves the machine in, told from the kinds of edge it has taken and its last one. */
  ghost function StateOf(p: Path): MatchState
    requires p != []
  {
    var afterAlias := p[|p| - 1].letter == Alias;
    if Takes(p, Assign) then
      if Takes(p, Reverse) then (if afterAlias then FlowToMemAliasReadWrite else FlowToReadWrite)
      else (if afterAlias then FlowToMemAliasWriteOnly else FlowToWriteOnly)
    else if Takes(p, Reverse) then (if afterAlias then FlowFromMemAliasReadOnly else FlowFromReadOnly)
    else FlowFromMemAliasNoReadWrite
  }

  predicate Avoids(p: Path, u: Node) {
    forall k :: 0 <= k < |p| ==> p[k].node != u
  }

  /** p is a grammar path for t that does not come back to its start. */
  ghost predicate Spells(g: Graph, m: Mem, t: Triple, p: Path) {
    && p != [] && IsPath(g, m, t.from, p) && End(t.from, p) == t.to
    && InLanguage(p) && Avoids(p, t.from) && StateOf(p) == t.state
  }

  ghost predicate HasSpelling(g: Graph, m: Mem, t: Triple) {
    exists p :: Spells(g, m, t, p)
  }

  ghost predicate Joined(g: Graph, m: Mem, u: Node, v: Node) {
    exists p :: IsPath(g, m, u, p) && End(u, p) == v && InLanguage(p)
  }

  ghost predicate Recorded(r: Reach, u: Node, v: Node) {
    exists q :: Triple(u, v, q) in r
  }

  // ------------------------------------------------- from paths to triples

  lemma TakesSnoc(p: Path, h: Hop, l: Letter)
    ensures Takes(p + [h], l) <==> Takes(p, l) || h.letter == l
  {
    var p' := p + [h];
    if Takes(p, l) {
      var k :| 0 <= k < |p| && p[k].letter == l;
      assert p'[k].letter == l;
    }
    if h.letter == l { assert p'[|p|].letter == l; }
    if Takes(p', l) && h.letter != l {
      var k :| 0 <= k < |p'| && p'[k].letter == l;
      assert p[k].letter == l;
    }
  }

  /** One more hop and one more transition agree. */
  lemma StateOfSnoc(p: Path, h: Hop)
    requires p != [] && InLanguage(p + [h])
    ensures h.letter == Assign ==> StateOf(p + [h]) == AssignNext(StateOf(p))
    ensures h.letter == Reverse ==> ReverseNext(StateOf(p)) == Some(StateOf(p + [h]))
    ensures h.letter == Alias ==> MemNext(StateOf(p)) == Some(StateOf(p + [h]))
  {
    var p' := p + [h];
    TakesSnoc(p, h, Assign);
    TakesSnoc(p, h, Reverse);
    assert p'[|p|] == h && p'[|p| - 1] == p[|p| - 1];
  }

  lemma PathPrefix(g: Graph, m: Mem, u: Node, p: Path, k: nat)
    requires k <= |p| && IsPath(g, m, u, p) && InLanguage(p)
    ensures IsPath(g, m, u, p[..k]) && InLanguage(p[..k]) && End(u, p[..k]) == NodeAt(u, p, k)
  {
    forall i | 0 <= i <= k ensures NodeAt(u, p[..k], i) == NodeAt(u, p, i) {}
    forall i | 0 <= i < k ensures HopAllowed(g, m, NodeAt(u, p[..k], i), p[..k][i].letter, p[..k][i].node) {
      assert NodeAt(u, p[..k], i) == NodeAt(u, p, i);
    }
  }

  lemma PathSuffix(g: Graph, m: Mem, u: Node, p: Path, k: nat)
    requires k <= |p| && IsPath(g, m, u, p) && InLanguage(p)
    ensures IsPath(g, m, NodeAt(u, p, k), p[k..]) && InLanguage(p[k..]) && End(NodeAt(u, p, k), p[k..]) == End(u, p)
  {
    var w, s := NodeAt(u, p, k), p[k..];
    forall i | 0 <= i <= |s| ensures NodeAt(w, s, i) == NodeAt(u, p, k + i) {}
    assert IsPath(g, m, w, s) by {
      hide HopAllowed, InLanguage;
      forall i | 0 <= i < |s| ensures HopAllowed(g, m, NodeAt(w, s, i), s[i].letter, s[i].node) {
        assert s[i] == p[k + i];
        assert HopAllowed(g, m, NodeAt(u, p, k + i), p[k + i].letter, p[k + i].node);
      }
    }
    SuffixInLanguage(p, k);
  }

  lemma SuffixInLanguage(p: Path, k: nat)
    requires k <= |p| && InLanguage(p)
    ensures InLanguage(p[k..])
  {
    forall i, j | 0 <= i < j < |p| - k && p[k..][i].letter == Assign ensures p[k..][j].letter != Reverse {
      assert p[k + i].letter == Assign;
    }
  }

  lemma FirstHopRecorded(g: Graph, r: Reach, m: Mem, u: Node, h: Hop)
    requires Closed(g, r, m) && HopAllowed(g, m, u, h.letter, h.node) && h.node != u
    ensures Triple(u, h.node, StateOf([h])) in r
  {
    assert [h][0].letter == h.letter && Takes([h], h.letter);
  }

  lemma NextHopRecorded(g: Graph, r: Reach, m: Mem, u: Node, p: Path, h: Hop)
    requires p != [] && Triple(u, End(u, p), StateOf(p)) in r
    requires Processed(g, r, m, Triple(u, End(u, p), StateOf(p)))
    requires HopAllowed(g, m, End(u, p), h.letter, h.node) && h.node != u && InLanguage(p + [h])
    ensures Triple(u, h.node, StateOf(p + [h])) in r
  {
    hide InLanguage, StateOf;
    StateOfSnoc(p, h);
  }

  /** In a closed pair every grammar path that does not come back to its start is recorded, with its state. */
  lemma {:induction false} PathRecorded(g: Graph, r: Reach, m: Mem, u: Node, p: Path)
    requires Closed(g, r, m)
    requires p != [] && IsPath(g, m, u, p) && InLanguage(p) && Avoids(p, u)
    ensures Triple(u, End(u, p), StateOf(p)) in r
    decreases |p|
  {
    hide Processed, HasInitial, HasMemStart, StateOf, InLanguage, HopAllowed;
    var n := |p| - 1;
    var p0, h := p[..n], p[n];
    assert p == p0 + [h];
    assert HopAllowed(g, m, NodeAt(u, p, n), h.letter, h.node);
    if n == 0 {
      assert p == [h];
      FirstHopRecorded(g, r, m, u, h);
    } else {
      PathPrefix(g, m, u, p, n);
      PathRecorded(g, r, m, u, p0);
      NextHopRecorded(g, r, m, u, p0, h);
    }
  }

  // ------------------------------------------------- from triples to paths

  lemma PathSnoc(g: Graph, m: Mem, u: Node, p: Path, h: Hop)
    requires IsPath(g, m, u, p) && HopAllowed(g, m, End(u, p), h.letter, h.node)
    ensures IsPath(g, m, u, p + [h])
  {
    hide HopAllowed;
    var p' := p + [h];
    forall k | 0 <= k <= |p| ensures NodeAt(u, p', k) == NodeAt(u, p, k) {}
    forall k | 0 <= k < |p'| ensures HopAllowed(g, m, NodeAt(u, p', k), p'[k].letter, p'[k].node) {
      if k < |p| { assert HopAllowed(g, m, NodeAt(u, p, k), p[k].letter, p[k].node); }
    }
  }

  /** A word may go on with whatever the state it has reached allows. */
  lemma LanguageSnoc(p: Path, h: Hop)
    requires p != [] && InLanguage(p)
    requires h.letter == Reverse ==> ReverseNext(StateOf(p)).Some?
    requires h.letter == Alias ==> MemNext(StateOf(p)).Some?
    ensures InLanguage(p + [h])
  {
    var p' := p + [h];
    forall i, j | 0 <= i < j < |p'| && p'[i].letter == Assign ensures p'[j].letter != Reverse {
      assert p[i].letter == Assign;
    }
  }

  lemma SpellingExtends(g: Graph, m: Mem, t: Triple, l: Letter, y: Node)
    requires HasSpelling(g, m, t) && HopAllowed(g, m, t.to, l, y) && y != t.from
    requires l == Reverse ==> ReverseNext(t.state).Some?
    requires l == Alias ==> MemNext(t.state).Some?
    ensures HasSpelling(g, m, Triple(t.from, y, match l
                                               case Assign => AssignNext(t.state)
                                               case Reverse => ReverseNext(t.state).value
                                               case Alias => MemNext(t.state).value))
  {
    var p: Path :| Spells(g, m, t, p);
    var h := Hop(l, y);
    var p' := p + [h];
    hide HopAllowed, InLanguage, StateOf;
    PathSnoc(g, m, t.from, p, h);
    LanguageSnoc(p, h);
    StateOfSnoc(p, h);
    assert Spells(g, m, Triple(t.from, y, StateOf(p')), p');
  }

  lemma SpellingStarts(g: Graph, m: Mem, x: Node, l: Letter, y: Node)
    requires HopAllowed(g, m, x, l, y) && x != y
    ensures HasSpelling(g, m, Triple(x, y, match l
                                           case Assign => FlowToWriteOnly
                                           case Reverse => FlowFromReadOnly
                                           case Alias => FlowFromMemAliasNoReadWrite))
  {
    var p := [Hop(l, y)];
    assert p[0].letter == l && Takes(p, l);
    assert Spells(g, m, Triple(x, y, StateOf(p)), p);
  }

  ghost function Spelled(g: Graph, r: Reach, m: Mem): Reach {
    set t | t in r && HasSpelling(g, m, t)
  }

  /** The triples that have a path over m' satisfy every rule that speaks of triples. */
  lemma SpelledKeepsSteps(g: Graph, r: Reach, m: Mem, m': Mem)
    requires Closed(g, r, m) && m' <= m
    ensures HasInitial(g, Spelled(g, r, m')) && HasMemStart(Spelled(g, r, m'), m')
    ensures forall t :: t in Spelled(g, r, m') ==>
              HasAssign(g, Spelled(g, r, m'), t) && HasReverse(g, Spelled(g, r, m'), t)
                  && HasMem(Spelled(g, r, m'), m', t)
  {
    var s := Spelled(g, r, m');
    forall x, y | Edge(g, x, y) && x != y
      ensures Triple(y, x, FlowFromReadOnly) in s && Triple(x, y, FlowToWriteOnly) in s
    {
      SpellingStarts(g, m', x, Assign, y);
      SpellingStarts(g, m', y, Reverse, x);
    }
    forall a, b | (a, b) in m' && a != b ensures Triple(a, b, FlowFromMemAliasNoReadWrite) in s {
      SpellingStarts(g, m', a, Alias, b);
    }
    forall t | t in s ensures HasAssign(g, s, t) && HasReverse(g, s, t) && HasMem(s, m', t) {
      assert Processed(g, r, m, t);
      forall y | Edge(g, t.to, y) && y != t.from ensures Triple(t.from, y, AssignNext(t.state)) in s {
        SpellingExtends(g, m', t, Assign, y);
      }
      if ReverseNext(t.state).Some? {
        forall y | Edge(g, y, t.to) && y != t.from ensures Triple(t.from, y, ReverseNext(t.state).value) in s {
          SpellingExtends(g, m', t, Reverse, y);
        }
      }
      if MemNext(t.state).Some? {
        forall b | (t.to, b) in m' && b != t.from ensures Triple(t.from, b, MemNext(t.state).value) in s {
          SpellingExtends(g, m', t, Alias, b);
        }
      }
    }
  }

  /** A triple is recorded exactly when a grammar path that does not come back to its start
      spells it, and its state says which kinds of edge that path took and how it ended. */
  lemma RecordedIffSpelled(g: Graph, r: Reach, m: Mem, t: Triple)
    requires Least(g, r, m)
    ensures t in r <==> HasSpelling(g, m, t)
  {
    if HasSpelling(g, m, t) {
      var p: Path :| Spells(g, m, t, p);
      PathRecorded(g, r, m, t.from, p);
    }
    SpelledKeepsSteps(g, r, m, m);
    assert Closed(g, Spelled(g, r, m), m) by {
      forall s | s in Spelled(g, r, m) ensures Processed(g, Spelled(g, r, m), m, s) {
        assert Processed(g, r, m, s);
      }
    }
  }

  /** With states ignored, paths may come back to their start: cut them at the last visit. */
  lemma JoinedIsRecorded(g: Graph, r: Reach, m: Mem, u: Node, p: Path)
    requires Closed(g, r, m)
    requires IsPath(g, m, u, p) && InLanguage(p) && End(u, p) != u
    ensures Recorded(r, u, End(u, p))
    decreases |p|
  {
    if Avoids(p, u) {
      PathRecorded(g, r, m, u, p);
    } else {
      var k :| 0 <= k < |p| && p[k].node == u;
      PathSuffix(g, m, u, p, k + 1);
      JoinedIsRecorded(g, r, m, u, p[k + 1..]);
    }
  }

  /** For distinct nodes, some state is recorded exactly when some grammar path joins them. */
  lemma RecordedIffJoined(g: Graph, r: Reach, m: Mem, u: Node, v: Node)
    requires Least(g, r, m) && u != v
    ensures Recorded(r, u, v) <==> Joined(g, m, u, v)
  {
    if Recorded(r, u, v) {
      var q :| Triple(u, v, q) in r;
      RecordedIffSpelled(g, r, m, Triple(u, v, q));
      var p: Path :| Spells(g, m, Triple(u, v, q), p);
    }
    if Joined(g, m, u, v) {
      var p: Path :| IsPath(g, m, u, p) && End(u, p) == v && InLanguage(p);
      JoinedIsRecorded(g, r, m, u, p);
    }
  }

  /** Two nodes are memory aliases exactly when the nodes one dereference above them are recorded. */
  ghost predicate BelowRecorded(g: Graph, r: Reach, a: Node, b: Node) {
    exists t :: t in r && a == Below(t.from) && b == Below(t.to) && HasNode(g, a) && HasNode(g, b)
  }

  lemma MemoryAliasIffRecordedAbove(g: Graph, r: Reach, m: Mem, a: Node, b: Node)
    requires Least(g, r, m)
    ensures (a, b) in m <==> BelowRecorded(g, r, a, b)
  {
    var m' := set p | p in m && BelowRecorded(g, r, p.0, p.1);
    assert Closed(g, r, m') by {
      forall t | t in r ensures Processed(g, r, m', t) {
        assert Processed(g, r, m, t);
        if HasNode(g, Below(t.from)) && HasNode(g, Below(t.to)) {
          assert BelowRecorded(g, r, Below(t.from), Below(t.to));
        }
      }
    }
    if BelowRecorded(g, r, a, b) {
      var t :| t in r && a == Below(t.from) && b == Below(t.to) && HasNode(g, a) && HasNode(g, b);
      assert Processed(g, r, m, t);
    }
  }

  // ------------------------------------------------------------- symmetry

  function Flip(l: Letter): Letter {
    match l
    case Assign => Reverse
    case Reverse => Assign
    case Alias => Alias
  }

  function Reversed(u: Node, p: Path): Path {
    seq(|p|, k requires 0 <= k < |p| => Hop(Flip(p[|p| - 1 - k].letter), NodeAt(u, p, |p| - 1 - k)))
  }

  ghost predicate Symmetric(m: Mem) {
    forall a, b :: (a, b) in m ==> (b, a) in m
  }

  lemma HopFlips(g: Graph, m: Mem, x: Node, l: Letter, y: Node)
    requires HopAllowed(g, m, x, l, y) && Symmetric(m)
    ensures HopAllowed(g, m, y, Flip(l), x)
  {
  }

  lemma ReversedInLanguage(u: Node, p: Path)
    requires InLanguage(p)
    ensures InLanguage(Reversed(u, p))
  {
    var q, n := Reversed(u, p), |p|;
    assert forall k :: 0 <= k < n ==> q[k].letter == Flip(p[n - 1 - k].letter);
    forall i, j | 0 <= i < j < n && q[i].letter == Assign ensures q[j].letter != Reverse {
      var i', j' := n - 1 - j, n - 1 - i;
      assert q[i].letter == Flip(p[j'].letter) && q[j].letter == Flip(p[i'].letter);
    }
    forall i, j | 0 <= i && j == i + 1 && j < n ensures !(q[i].letter == Alias && q[j].letter == Alias) {
      var i', j' := n - 1 - j, n - 1 - i;
      assert q[i].letter == Flip(p[j'].letter) && q[j].letter == Flip(p[i'].letter);
      assert j' == i' + 1;
    }
  }

  lemma ReversedNodes(u: Node, p: Path, k: nat)
    requires k <= |p|
    ensures NodeAt(End(u, p), Reversed(u, p), k) == NodeAt(u, p, |p| - k)
  {
  }

  /** The grammar is its own mirror image. */
  lemma ReversedIsPath(g: Graph, m: Mem, u: Node, p: Path)
    requires IsPath(g, m, u, p) && InLanguage(p) && Symmetric(m)
    ensures IsPath(g, m, End(u, p), Reversed(u, p)) && InLanguage(Reversed(u, p))
    ensures End(End(u, p), Reversed(u, p)) == u
  {
    hide InLanguage, Flip, NodeAt, Symmetric, HopAllowed;
    var v, q, n := End(u, p), Reversed(u, p), |p|;
    ReversedInLanguage(u, p);
    ReversedNodes(u, p, n);
    assert NodeAt(u, p, 0) == u by { FirstNode(u, p); }
    forall k | 0 <= k < n ensures HopAllowed(g, m, NodeAt(v, q, k), q[k].letter, q[k].node) {
      var c := n - 1 - k;
      ReversedNodes(u, p, k);
      assert NodeAt(u, p, c + 1) == p[c].node by { LastNode(u, p, c); }
      HopFlips(g, m, NodeAt(u, p, c), p[c].letter, p[c].node);
    }
  }

  lemma FirstNode(u: Node, p: Path)
    ensures NodeAt(u, p, 0) == u
  {
  }

  lemma LastNode(u: Node, p: Path, c: nat)
    requires c < |p|
    ensures NodeAt(u, p, c + 1) == p[c].node
  {
  }

  lemma NoSelfPairs(g: Graph, r: Reach, m: Mem)
    requires Least(g, r, m)
    ensures forall t :: t in r ==> t.from != t.to
  {
    forall t | t in r ensures t.from != t.to {
      RecordedIffSpelled(g, r, m, t);
      var p: Path :| Spells(g, m, t, p);
    }
  }

  /** The memory aliases are symmetric. */
  lemma MemIsSymmetric(g: Graph, r: Reach, m: Mem)
    requires Least(g, r, m)
    ensures Symmetric(m)
  {
    NoSelfPairs(g, r, m);
    var m' := set p | p in m && (p.1, p.0) in m;
    assert Symmetric(m');
    var s := Spelled(g, r, m');
    SpelledKeepsSteps(g, r, m, m');
    forall t | t in s ensures HasBelow(g, m', t) {
      assert Processed(g, r, m, t);
      var p: Path :| Spells(g, m', t, p);
      ReversedIsPath(g, m', t.from, p);
      var q := Reversed(t.from, p);
      assert IsPath(g, m, t.to, q);
      JoinedIsRecorded(g, r, m, t.to, q);
      var st :| Triple(t.to, t.from, st) in r;
      assert Processed(g, r, m, Triple(t.to, t.from, st));
    }
    assert Closed(g, s, m');
    assert m <= m';
  }

  /** Reachability with the state ignored is symmetric, although insertion is directed. */
  lemma RecordedIsSymmetric(g: Graph, r: Reach, m: Mem, u: Node, v: Node)
    requires Least(g, r, m)
    ensures Recorded(r, u, v) <==> Recorded(r, v, u)
  {
    MemIsSymmetric(g, r, m);
    if Recorded(r, u, v) { RecordedBack(g, r, m, u, v); }
    if Recorded(r, v, u) { RecordedBack(g, r, m, v, u); }
  }

  lemma RecordedBack(g: Graph, r: Reach, m: Mem, u: Node, v: Node)
    requires Least(g, r, m) && Symmetric(m) && Recorded(r, u, v)
    ensures Recorded(r, v, u)
  {
    NoSelfPairs(g, r, m);
    var q :| Triple(u, v, q) in r;
    RecordedIffJoined(g, r, m, u, v);
    var p: Path :| IsPath(g, m, u, p) && End(u, p) == v && InLanguage(p);
    ReversedIsPath(g, m, u, p);
    JoinedIsRecorded(g, r, m, v, Reversed(u, p));
  }
}
