/**
 * The pruned maze is a perfect maze. It is connected (Pruning.PrunedConnected)
 * and it keeps exactly the |g| - 1 accepted edges, each listed once from each
 * end, so its adjacency lists hold 2 * (|g| - 1) entries in all: a connected
 * graph with one passage fewer than cells is a tree, with one simple path
 * between any two cells.
 */
module Perfect {
  import opened Grid
  import opened Graph
  import opened Pruning

  /** The cell that accepted edge f joins to a, or nothing when f does not touch a. */
  function Ends(f: Frontier, a: int): seq<int> {
    if f.origin == a then [f.target] else if f.target == a then [f.origin] else []
  }

  /** The cells joined to a by the first m accepted edges, in acceptance order. */
  function TreeNeighbours(tree: seq<Frontier>, m: int, a: int): seq<int>
    requires 0 <= m <= |tree|
  {
    if m == 0 then [] else TreeNeighbours(tree, m - 1, a) + Ends(tree[m - 1], a)
  }

  /** One of the first m accepted edges joins a and j, in either orientation. */
  predicate JoinedBefore(tree: seq<Frontier>, m: int, a: int, j: int)
    requires 0 <= m <= |tree|
  {
    exists k | 0 <= k < m ::
      (tree[k].origin == a && tree[k].target == j) || (tree[k].target == a && tree[k].origin == j)
  }

  /** The number of entries in the lists of cells 0 .. n - 1. */
  function EntriesUpTo(p: seq<seq<Edge>>, n: int): nat
    requires 0 <= n <= |p|
  {
    if n == 0 then 0 else EntriesUpTo(p, n - 1) + |p[n - 1]|
  }

  /** How often the first m accepted edges name one of the cells 0 .. n - 1 as an end. */
  function DegreeSum(tree: seq<Frontier>, m: int, n: int): nat
    requires 0 <= m <= |tree| && n >= 0
  {
    if n == 0 then 0 else DegreeSum(tree, m, n - 1) + |TreeNeighbours(tree, m, n - 1)|
  }

  /** How often accepted edge f names one of the cells 0 .. n - 1 as an end. */
  function EndsCount(f: Frontier, n: int): nat
    requires n >= 0
  {
    if n == 0 then 0 else EndsCount(f, n - 1) + |Ends(f, n - 1)|
  }

  /** The list of cells joined to a holds exactly the cells some accepted edge joins to a. */
  lemma {:induction false} TreeNeighboursMembers(tree: seq<Frontier>, m: int, a: int)
    requires 0 <= m <= |tree|
    ensures forall j :: j in TreeNeighbours(tree, m, a) <==> JoinedBefore(tree, m, a, j)
  {
    if m > 0 {
      TreeNeighboursMembers(tree, m - 1, a);
      forall j ensures j in TreeNeighbours(tree, m, a) <==> JoinedBefore(tree, m, a, j) {
        if JoinedBefore(tree, m, a, j) {
          var k :| 0 <= k < m &&
            ((tree[k].origin == a && tree[k].target == j) || (tree[k].target == a && tree[k].origin == j));
          if k < m - 1 {
            assert JoinedBefore(tree, m - 1, a, j);
          }
        }
        if JoinedBefore(tree, m - 1, a, j) {
          var k :| 0 <= k < m - 1 &&
            ((tree[k].origin == a && tree[k].target == j) || (tree[k].target == a && tree[k].origin == j));
          assert JoinedBefore(tree, m, a, j);
        }
        if j in Ends(tree[m - 1], a) {
          assert JoinedBefore(tree, m, a, j);
        }
      }
    }
  }

  /** Both ends of an accepted edge are reached once it is accepted. */
  lemma EndsReached(g: seq<seq<Edge>>, tree: seq<Frontier>, k: int, m: int)
    requires Grows(g, tree) && 0 <= k < m <= |tree|
    ensures tree[k].origin in Visited(tree, m) && tree[k].target in Visited(tree, m)
  {
    VisitedGrows(tree, k, m, tree[k].origin);
    assert Visited(tree, k + 1)[k + 1] == tree[k].target;
    VisitedGrows(tree, k + 1, m, tree[k].target);
  }

  /** A cell joined to a by one of the first m accepted edges is reached by them, and so is a. */
  lemma NeighbourReached(g: seq<seq<Edge>>, tree: seq<Frontier>, m: int, a: int, j: int)
    requires Grows(g, tree) && 0 <= m <= |tree| && j in TreeNeighbours(tree, m, a)
    ensures j in Visited(tree, m) && a in Visited(tree, m)
  {
    TreeNeighboursMembers(tree, m, a);
    var k :| 0 <= k < m &&
      ((tree[k].origin == a && tree[k].target == j) || (tree[k].target == a && tree[k].origin == j));
    EndsReached(g, tree, k, m);
  }

  lemma SnocDistinct<T>(s: seq<T>, x: T)
    requires Distinct(s) && x !in s
    ensures Distinct(s + [x])
  {
    forall a, b | 0 <= a < b < |s| + 1 ensures (s + [x])[a] != (s + [x])[b] {
      assert (s + [x])[a] == s[a] && s[a] in s;
    }
  }

  /**
   * An accepted edge never joins a to a cell already joined to it: the edge
   * leads to a cell not reached before, while a and every cell joined to it
   * are reached.
   */
  lemma NewNeighbour(g: seq<seq<Edge>>, tree: seq<Frontier>, m: int, a: int)
    requires Grows(g, tree) && 0 < m <= |tree| && Ends(tree[m - 1], a) != []
    ensures Ends(tree[m - 1], a)[0] !in TreeNeighbours(tree, m - 1, a)
  {
    var f := tree[m - 1];
    var x := Ends(f, a)[0];
    var reached := Visited(tree, m - 1);
    assert f.target !in reached;
    assert f.target == a || f.target == x;
    if x in TreeNeighbours(tree, m - 1, a) {
      NeighbourReached(g, tree, m - 1, a, x);
      assert false;
    }
  }

  /** No cell is joined to a twice. */
  lemma {:induction false} TreeNeighboursDistinct(g: seq<seq<Edge>>, tree: seq<Frontier>, m: int, a: int)
    requires Grows(g, tree) && 0 <= m <= |tree|
    ensures Distinct(TreeNeighbours(tree, m, a))
  {
    if m > 0 {
      var prev := TreeNeighbours(tree, m - 1, a);
      var ends := Ends(tree[m - 1], a);
      TreeNeighboursDistinct(g, tree, m - 1, a);
      if ends == [] {
        assert TreeNeighbours(tree, m, a) == prev + [] == prev;
      } else {
        NewNeighbour(g, tree, m, a);
        assert TreeNeighbours(tree, m, a) == prev + [ends[0]];
        SnocDistinct(prev, ends[0]);
      }
    }
  }

  /** A list without repetitions has as many members as elements. */
  lemma {:induction false} DistinctCard<T>(s: seq<T>)
    requires Distinct(s)
    ensures |set x | x in s| == |s|
  {
    if s != [] {
      TailDistinct(s);
      DistinctCard(s[1..]);
      assert (set x | x in s) == {s[0]} + (set x | x in s[1..]);
    }
  }

  /** Two lists without repetitions and with the same members have the same length. */
  lemma SameElementsSameLength<T>(s: seq<T>, t: seq<T>)
    requires Distinct(s) && Distinct(t) && forall x :: x in s <==> x in t
    ensures |s| == |t|
  {
    DistinctCard(s);
    DistinctCard(t);
    assert (set x | x in s) == (set x | x in t);
  }

  /** An accepted edge of a Prim tree over the full grid joins two grid neighbours. */
  lemma TreeEdgeAdjacent(height: int, width: int, g: seq<seq<Edge>>, tree: seq<Frontier>, a: int, j: int)
    requires FullGraph(height, width, g) && Grows(g, tree) && TreeEdge(tree, a, j)
    ensures Adjacent(height, width, a, j)
  {
    var k :| 0 <= k < |tree| &&
      ((tree[k].origin == a && tree[k].target == j) || (tree[k].target == a && tree[k].origin == j));
    var f := tree[k];
    assert IsEntry(g, f);
    var t :| 0 <= t < |g[f.origin]| && g[f.origin][t] == Edge(f.weight, f.target);
    assert Nodes(g[f.origin])[t] == f.target;
    AdjacentNodesCorrect(height, width, f.origin);
    AdjacentSymmetric(height, width, f.origin, f.target);
  }

  /** After pruning, the list of cell a holds one entry per accepted edge at a. */
  lemma CellDegree(height: int, width: int, g: seq<seq<Edge>>, tree: seq<Frontier>, a: int)
    requires FullGraph(height, width, g) && Grows(g, tree) && 0 <= a < |g|
    ensures |Pruned(g, tree)[a]| == |TreeNeighbours(tree, |tree|, a)|
  {
    var p := Pruned(g, tree);
    var ns := Nodes(p[a]);
    var tn := TreeNeighbours(tree, |tree|, a);
    AdjacentNodesCorrect(height, width, a);
    KeptSubList(g[a], a, tree);
    SubListNodesDistinct(p[a], g[a]);
    TreeNeighboursDistinct(g, tree, |tree|, a);
    TreeNeighboursMembers(tree, |tree|, a);
    forall j ensures j in ns <==> j in tn {
      PrunedLeadsTo(height, width, g, tree, a, j);
      if j in tn {
        TreeEdgeAdjacent(height, width, g, tree, a, j);
      }
      if j in ns {
        var k :| 0 <= k < |ns| && ns[k] == j;
        assert p[a][k].node == j;
      }
      if Linked(p, a, j) {
        var k :| 0 <= k < |p[a]| && p[a][k].node == j;
        assert ns[k] == j;
      }
    }
    SameElementsSameLength(ns, tn);
  }

  /** Lists holding one entry per accepted edge at their cell hold as many entries as the edges name cells. */
  lemma {:induction false} EntriesMatch(p: seq<seq<Edge>>, tree: seq<Frontier>, n: int)
    requires 0 <= n <= |p|
    requires forall a | 0 <= a < n :: |p[a]| == |TreeNeighbours(tree, |tree|, a)|
    ensures EntriesUpTo(p, n) == DegreeSum(tree, |tree|, n)
  {
    if n > 0 {
      EntriesMatch(p, tree, n - 1);
    }
  }

  /** Before any edge is accepted, no cell has a tree neighbour. */
  lemma {:induction false} DegreeSumNone(tree: seq<Frontier>, n: int)
    requires n >= 0
    ensures DegreeSum(tree, 0, n) == 0
  {
    if n > 0 {
      DegreeSumNone(tree, n - 1);
    }
  }

  /** An edge between two different cells names each of its ends once. */
  lemma {:induction false} EndsCountBoth(f: Frontier, n: int)
    requires f.origin != f.target && n >= 0
    ensures EndsCount(f, n) == (if 0 <= f.origin < n then 1 else 0) + (if 0 <= f.target < n then 1 else 0)
  {
    if n > 0 {
      EndsCountBoth(f, n - 1);
    }
  }

  /** Accepting one more edge adds the number of times it names one of the cells. */
  lemma {:induction false} DegreeSumStep(tree: seq<Frontier>, m: int, n: int)
    requires 0 < m <= |tree| && n >= 0
    ensures DegreeSum(tree, m, n) == DegreeSum(tree, m - 1, n) + EndsCount(tree[m - 1], n)
  {
    if n > 0 {
      DegreeSumStep(tree, m, n - 1);
    }
  }

  /** An accepted edge joins two different cells of the graph. */
  lemma EdgeInGraph(g: seq<seq<Edge>>, tree: seq<Frontier>, k: int)
    requires WellFormed(g) && Grows(g, tree) && 0 <= k < |tree|
    ensures 0 <= tree[k].origin < |g| && 0 <= tree[k].target < |g| && tree[k].origin != tree[k].target
  {
    var f := tree[k];
    assert IsEntry(g, f) && f.origin in Visited(tree, k) && f.target !in Visited(tree, k);
    var t :| 0 <= t < |g[f.origin]| && g[f.origin][t] == Edge(f.weight, f.target);
    assert 0 <= g[f.origin][t].node < |g|;
  }

  /** The first m accepted edges name the cells of the graph 2 * m times: each edge at both ends. */
  lemma {:induction false} DegreeSumTree(g: seq<seq<Edge>>, tree: seq<Frontier>, m: int)
    requires WellFormed(g) && Grows(g, tree) && 0 <= m <= |tree|
    ensures DegreeSum(tree, m, |g|) == 2 * m
  {
    if m == 0 {
      DegreeSumNone(tree, |g|);
    } else {
      DegreeSumTree(g, tree, m - 1);
      DegreeSumStep(tree, m, |g|);
      EdgeInGraph(g, tree, m - 1);
      EndsCountBoth(tree[m - 1], |g|);
    }
  }

  /**
   * The pruned maze keeps |g| - 1 passages, each listed from both ends: its
   * lists hold 2 * (|g| - 1) entries in all.
   */
  lemma PrunedEntryCount(height: int, width: int, g: seq<seq<Edge>>, tree: seq<Frontier>)
    requires FullGraph(height, width, g) && SpanningTree(g, tree)
    ensures EntriesUpTo(Pruned(g, tree), |g|) == 2 * (|g| - 1)
  {
    OrderGrows(g, tree);
    forall a | 0 <= a < |g| ensures |Pruned(g, tree)[a]| == |TreeNeighbours(tree, |tree|, a)| {
      CellDegree(height, width, g, tree, a);
    }
    EntriesMatch(Pruned(g, tree), tree, |g|);
    DegreeSumTree(g, tree, |tree|);
  }
}
