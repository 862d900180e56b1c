/**
 * The weighted graph over the grid's cells: one adjacency list per cell,
 * each entry a (weight, neighbour) pair, and the spanning-tree vocabulary
 * used by the maze generator.
 */
module Graph {
  import opened Grid

  /** An adjacency-list entry: the weight of the edge and the neighbour it leads to. */
  datatype Edge = Edge(weight: int, node: int)

  /** A pending or accepted tree edge: (weight, origin, target), compared as a triple. */
  datatype Frontier = Frontier(weight: int, origin: int, target: int)

  /** The neighbour indices of an adjacency list, in order. */
  function Nodes(es: seq<Edge>): (ns: seq<int>)
    ensures |ns| == |es| && forall k | 0 <= k < |es| :: ns[k] == es[k].node
  {
    seq(|es|, k requires 0 <= k < |es| => es[k].node)
  }

  /** Every entry of every list names a cell of the graph. */
  ghost predicate WellFormed(g: seq<seq<Edge>>) {
    forall a, k | 0 <= a < |g| && 0 <= k < |g[a]| :: 0 <= g[a][k].node < |g|
  }

  /** `g` has an entry from `a` to `b`. */
  predicate Linked(g: seq<seq<Edge>>, a: int, b: int) {
    0 <= a < |g| && exists k | 0 <= k < |g[a]| :: g[a][k].node == b
  }

  /** Every entry (w, b) in the list of a is mirrored by an entry (w, a) in the list of b. */
  ghost predicate Symmetric(g: seq<seq<Edge>>)
    requires WellFormed(g)
  {
    forall a, k | 0 <= a < |g| && 0 <= k < |g[a]| :: Edge(g[a][k].weight, a) in g[g[a][k].node]
  }

  /** Neighbours within one list are distinct. */
  ghost predicate DistinctNeighbours(g: seq<seq<Edge>>) {
    forall a | 0 <= a < |g| :: Distinct(Nodes(g[a]))
  }

  /**
   * The fully connected maze before pruning: every cell lists exactly its
   * grid neighbours, in enumeration order, with weights in [1, 1000], and
   * both directions of each edge carry the same weight.
   */
  ghost predicate FullGraph(height: int, width: int, g: seq<seq<Edge>>) {
    ValidDims(height, width) && |g| == height * width &&
    (forall a | 0 <= a < |g| :: Nodes(g[a]) == AdjacentNodes(height, width, a)) &&
    (forall a, k | 0 <= a < |g| && 0 <= k < |g[a]| :: 1 <= g[a][k].weight <= 1000) &&
    WellFormed(g) && Symmetric(g)
  }

  /** Lexicographic order on (weight, origin, target), the order of sorted tuples. */
  predicate LexLeq(a: Frontier, b: Frontier) {
    a.weight < b.weight ||
    (a.weight == b.weight && (a.origin < b.origin || (a.origin == b.origin && a.target <= b.target)))
  }

  /** The frontier record stands for an entry of `g`. */
  predicate IsEntry(g: seq<seq<Edge>>, f: Frontier) {
    0 <= f.origin < |g| && Edge(f.weight, f.target) in g[f.origin]
  }

  /** The frontier record of entry k in the list of a. */
  function EntryAt(g: seq<seq<Edge>>, a: int, k: int): Frontier
    requires 0 <= a < |g| && 0 <= k < |g[a]|
  {
    Frontier(g[a][k].weight, a, g[a][k].node)
  }

  /** Cell 0 followed by the targets of the first `k` accepted edges. */
  function Visited(tree: seq<Frontier>, k: int): (v: seq<int>)
    requires 0 <= k <= |tree|
    ensures |v| == k + 1 && v[0] == 0 && forall t | 0 <= t < k :: v[t + 1] == tree[t].target
  {
    [0] + seq(k, t requires 0 <= t < k => tree[t].target)
  }

  /**
   * `f` is the least (weight, origin, target) entry of `g` that leads from a
   * cell in `reached` to a cell outside it.
   */
  ghost predicate LightEdge(g: seq<seq<Edge>>, reached: seq<int>, f: Frontier) {
    IsEntry(g, f) && f.origin in reached && f.target !in reached &&
    forall a, k | 0 <= a < |g| && 0 <= k < |g[a]| && a in reached && g[a][k].node !in reached ::
      LexLeq(f, EntryAt(g, a, k))
  }

  /** Each accepted edge is the light edge of the cut left by the ones before it. */
  ghost predicate PrimOrder(g: seq<seq<Edge>>, tree: seq<Frontier>) {
    forall k | 0 <= k < |tree| :: LightEdge(g, Visited(tree, k), tree[k])
  }

  /** The accepted edges reach every cell: a spanning tree of |g| - 1 edges. */
  ghost predicate SpanningTree(g: seq<seq<Edge>>, tree: seq<Frontier>) {
    |g| >= 1 && |tree| == |g| - 1 && PrimOrder(g, tree) &&
    forall c | 0 <= c < |g| :: c in Visited(tree, |tree|)
  }

  /** {i, j} is an accepted edge, in either orientation. */
  predicate TreeEdge(tree: seq<Frontier>, i: int, j: int) {
    exists k | 0 <= k < |tree| ::
      (tree[k].origin == i && tree[k].target == j) || (tree[k].target == i && tree[k].origin == j)
  }

  /** The entries of the list of cell i that are accepted edges, in their original order. */
  function Kept(es: seq<Edge>, i: int, tree: seq<Frontier>): seq<Edge> {
    if es == [] then []
    else (if TreeEdge(tree, i, es[0].node) then [es[0]] else []) + Kept(es[1..], i, tree)
  }

  /** The maze after pruning: each list keeps its accepted edges. */
  function Pruned(g: seq<seq<Edge>>, tree: seq<Frontier>): (p: seq<seq<Edge>>)
    ensures |p| == |g|
  {
    seq(|g|, i requires 0 <= i < |g| => Kept(g[i], i, tree))
  }

  /** `a` is obtained from `b` by deleting some elements. */
  predicate SubList<T(==)>(a: seq<T>, b: seq<T>) {
    if a == [] then true
    else if b == [] then false
    else (a[0] == b[0] && SubList(a[1..], b[1..])) || SubList(a, b[1..])
  }

  /** A path: a non-empty sequence of cells, each linked to the next, none repeated. */
  predicate SimplePath(g: seq<seq<Edge>>, p: seq<int>) {
    |p| >= 1 && 0 <= p[0] < |g| && Distinct(p) &&
    forall t | 0 <= t < |p| - 1 :: Linked(g, p[t], p[t + 1])
  }

  /** A simple path from `a` to `b`. */
  predicate PathBetween(g: seq<seq<Edge>>, p: seq<int>, a: int, b: int) {
    SimplePath(g, p) && p[0] == a && p[|p| - 1] == b
  }

  /** Python's `list.remove(x)`: delete the first occurrence of x. */
  function RemoveFirst<T(==)>(s: seq<T>, x: T): seq<T>
    requires x in s
  {
    if s[0] == x then s[1..] else [s[0]] + RemoveFirst(s[1..], x)
  }

  /** On a list without repetitions, removing x leaves exactly the other elements. */
  lemma {:induction false} RemoveFirstDistinct<T>(s: seq<T>, x: T)
    requires x in s && Distinct(s)
    ensures |RemoveFirst(s, x)| == |s| - 1 && Distinct(RemoveFirst(s, x))
    ensures forall y :: y in RemoveFirst(s, x) <==> y in s && y != x
  {
    if s[0] != x {
      assert Distinct(s[1..]) by {
        forall i, j | 0 <= i < j < |s| - 1 ensures s[1..][i] != s[1..][j] {
          assert s[1..][i] == s[i + 1] && s[1..][j] == s[j + 1];
        }
      }
      RemoveFirstDistinct(s[1..], x);
      var r := RemoveFirst(s[1..], x);
      assert RemoveFirst(s, x) == [s[0]] + r;
      forall i, j | 0 <= i < j < |r| + 1 ensures ([s[0]] + r)[i] != ([s[0]] + r)[j] {
        if i == 0 {
          assert ([s[0]] + r)[j] == r[j - 1] && r[j - 1] in r;
        }
      }
    } else {
      forall y ensures y in s[1..] <==> y in s && y != x {
        if y in s && y != x {
          var t :| 0 <= t < |s| && s[t] == y;
          assert t != 0;
          assert s[1..][t - 1] == y;
        }
        if y in s[1..] {
          var t :| 0 <= t < |s| - 1 && s[1..][t] == y;
          assert s[t + 1] == y;
        }
      }
    }
  }
}
