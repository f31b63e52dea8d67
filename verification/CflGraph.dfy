// The program expression graph: nodes are values at dereference levels, edges are
// pointer assignments, kept in both directions (src/lib/Analysis/CFLGraph.h).
module CflGraph {
  import opened Options

  type Value = nat

  /** A value dereferenced `level` times. */
  datatype Node = Node(val: Value, level: nat)

  datatype NodeInfo = NodeInfo(edges: seq<Node>, reverseEdges: seq<Node>, attr: set<nat>)

  datatype Graph = Graph(values: map<Value, seq<NodeInfo>>)

  /** getNode(n) is not null. */
  predicate HasNode(g: Graph, n: Node) {
    n.val in g.values && n.level < |g.values[n.val]|
  }

  function Info(g: Graph, n: Node): NodeInfo
    requires HasNode(g, n)
  {
    g.values[n.val][n.level]
  }

  function Nodes(g: Graph): set<Node> {
    set v, i | v in g.values && 0 <= i < |g.values[v]| :: Node(v, i)
  }

  predicate Edge(g: Graph, x: Node, y: Node) {
    HasNode(g, x) && y in Info(g, x).edges
  }

  /** Every value has a level, edges join nodes, and reverse edges are the edges reversed. */
  ghost predicate WellFormed(g: Graph) {
    && (forall v :: v in g.values ==> |g.values[v]| > 0)
    && (forall x, y :: Edge(g, x, y) ==> HasNode(g, y))
    && (forall x, y :: HasNode(g, y) ==> (x in Info(g, y).reverseEdges <==> Edge(g, x, y)))
  }

  /** The node one dereference further. */
  function Below(n: Node): Node {
    Node(n.val, n.level + 1)
  }

  function NodeBelow(g: Graph, n: Node): Option<Node> {
    if HasNode(g, Below(n)) then Some(Below(n)) else None
  }

  /** addEdge: one entry in each direction. */
  function AddEdge(g: Graph, x: Node, y: Node): Graph
    requires HasNode(g, x) && HasNode(g, y)
  {
    var ix := Info(g, x);
    var g1 := g.(values := g.values[x.val := g.values[x.val][x.level := ix.(edges := ix.edges + [y])]]);
    var iy := Info(g1, y);
    g1.(values := g1.values[y.val := g1.values[y.val][y.level := iy.(reverseEdges := iy.reverseEdges + [x])]])
  }

  /** Building a graph edge by edge keeps both directions in step. */
  lemma AddEdgeKeepsWellFormed(g: Graph, x: Node, y: Node)
    requires WellFormed(g) && HasNode(g, x) && HasNode(g, y)
    ensures WellFormed(AddEdge(g, x, y))
    ensures forall a, b :: Edge(AddEdge(g, x, y), a, b) <==> Edge(g, a, b) || (a == x && b == y)
  {
    var g' := AddEdge(g, x, y);
    forall n ensures HasNode(g', n) <==> HasNode(g, n) {}
    forall n | HasNode(g, n)
      ensures Info(g', n).edges == (if n == x then Info(g, n).edges + [y] else Info(g, n).edges)
      ensures Info(g', n).reverseEdges == (if n == y then Info(g, n).reverseEdges + [x] else Info(g, n).reverseEdges)
    {}
    forall a, b ensures Edge(g', a, b) <==> Edge(g, a, b) || (a == x && b == y) {}
    forall v | v in g'.values ensures |g'.values[v]| > 0 { assert v in g.values; }
  }
}
