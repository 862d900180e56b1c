/**
 * The spanning-tree phase of maze generation (Prim's algorithm over the
 * weighted grid graph, starting from cell 0, with lazy deletion of stale
 * pending edges).
 */
module Prim {
  import opened Grid
  import opened Graph

  /**
   * Sorting the pending list and popping its head: the least
   * (weight, origin, target) triple leaves the list, everything else stays.
   */
  method PopMin(pending: seq<Frontier>) returns (m: Frontier, rest: seq<Frontier>)
    requires |pending| > 0
    ensures m in pending && forall f | f in pending :: LexLeq(m, f)
    ensures multiset(rest) + multiset{m} == multiset(pending)
    ensures forall f | f in rest :: f in pending
    ensures forall f | f in pending && f != m :: f in rest
    ensures |rest| == |pending| - 1
  {
    var idx := 0;
    for j := 1 to |pending|
      invariant 0 <= idx < |pending|
      invariant forall t | 0 <= t < j :: LexLeq(pending[idx], pending[t])
    {
      if !LexLeq(pending[idx], pending[j]) {
        idx := j;
      }
    }
    m := pending[idx];
    rest := pending[..idx] + pending[idx + 1..];
    assert pending == pending[..idx] + [m] + pending[idx + 1..];
    forall f | f in rest ensures f in pending {
      assert multiset(rest)[f] > 0;
    }
    forall f | f in pending && f != m ensures f in rest {
      assert multiset(pending)[f] > 0;
    }
  }

  /**
   * One round's choice of edge: pop the minimum, and keep popping while the
   * popped edge leads to a cell already traversed. `live` is a pending edge
   * into an untraversed cell, so the list never runs dry.
   */
  method SelectEdge(pending: seq<Frontier>, traversed: seq<int>, ghost live: Frontier)
    returns (m: Frontier, rest: seq<Frontier>)
    requires live in pending && live.target !in traversed
    ensures m in pending && m.target !in traversed
    ensures forall f | f in pending && f.target !in traversed :: LexLeq(m, f)
    ensures forall f | f in rest :: f in pending
    ensures forall f | f in pending && f.target !in traversed && f != m :: f in rest
  {
    m, rest := PopMin(pending);
    while m.target in traversed
      invariant m in pending
      invariant forall f | f in rest :: f in pending && LexLeq(m, f)
      invariant forall f | f in pending && f.target !in traversed :: (f == m || f in rest) && LexLeq(m, f)
      decreases |rest|
    {
      assert live in rest;
      m, rest := PopMin(rest);
    }
  }

  /** Queue, from the newly traversed cell v, every edge that leads to an untraversed cell. */
  method PushEdges(pending: seq<Frontier>, v: int, es: seq<Edge>, untraversed: seq<int>)
    returns (pending': seq<Frontier>)
    ensures |pending| <= |pending'| && pending'[..|pending|] == pending
    ensures forall f | f in pending' ::
      f in pending || (f.origin == v && Edge(f.weight, f.target) in es && f.target in untraversed)
    ensures forall k | 0 <= k < |es| && es[k].node in untraversed ::
      Frontier(es[k].weight, v, es[k].node) in pending'
  {
    pending' := pending;
    for k := 0 to |es|
      invariant |pending| <= |pending'| && pending'[..|pending|] == pending
      invariant forall f | f in pending' ::
        f in pending || (f.origin == v && Edge(f.weight, f.target) in es && f.target in untraversed)
      invariant forall t | 0 <= t < k && es[t].node in untraversed ::
        Frontier(es[t].weight, v, es[t].node) in pending'
    {
      if es[k].node in untraversed {
        pending' := pending' + [Frontier(es[k].weight, v, es[k].node)];
      }
    }
  }

  lemma VisitedExtends(tree: seq<Frontier>, m: Frontier)
    ensures Visited(tree + [m], |tree| + 1) == Visited(tree, |tree|) + [m.target]
    ensures forall k | 0 <= k <= |tree| :: Visited(tree + [m], k) == Visited(tree, k)
  {
    var t' := tree + [m];
    assert Visited(t', |t'|) == Visited(tree, |tree|) + [m.target];
    forall k | 0 <= k <= |tree| ensures Visited(t', k) == Visited(tree, k) {
      assert forall t | 0 <= t < k :: t'[t] == tree[t];
    }
  }

  /** Appending the light edge of the current cut keeps the Prim order. */
  lemma {:induction false} PrimOrderExtends(g: seq<seq<Edge>>, tree: seq<Frontier>, m: Frontier)
    requires PrimOrder(g, tree) && LightEdge(g, Visited(tree, |tree|), m)
    ensures PrimOrder(g, tree + [m])
  {
    VisitedExtends(tree, m);
    var t' := tree + [m];
    forall k | 0 <= k < |t'| ensures LightEdge(g, Visited(t', k), t'[k]) {
      if k < |tree| {
        assert t'[k] == tree[k];
      }
    }
  }

  /**
   * While some cell is untraversed, some pending edge leads to one: the grid
   * is connected, and every edge out of the traversed cells is pending.
   */
  lemma LiveEdgeExists(height: int, width: int, g: seq<seq<Edge>>, traversed: seq<int>,
                       pending: seq<Frontier>, u: int)
    returns (live: Frontier)
    requires FullGraph(height, width, g) && 0 in traversed
    requires 0 <= u < |g| && u !in traversed
    requires forall c | c in traversed :: 0 <= c < |g|
    requires forall a, k | 0 <= a < |g| && 0 <= k < |g[a]| && a in traversed && g[a][k].node !in traversed ::
      EntryAt(g, a, k) in pending
    ensures live in pending && live.target !in traversed
  {
    CutIsCrossed(height, width, traversed, u);
    var a, b :| a in traversed && b !in traversed && Adjacent(height, width, a, b);
    AdjacentNodesCorrect(height, width, a);
    assert b in Nodes(g[a]);
    var k :| 0 <= k < |g[a]| && Nodes(g[a])[k] == b;
    live := EntryAt(g, a, k);
  }

  /** Every pending edge is an entry of `g` leaving a traversed cell. */
  ghost predicate PendingSound(g: seq<seq<Edge>>, traversed: seq<int>, pending: seq<Frontier>) {
    forall f | f in pending :: IsEntry(g, f) && f.origin in traversed
  }

  /** Every entry of `g` from a traversed cell to an untraversed one is pending. */
  ghost predicate PendingComplete(g: seq<seq<Edge>>, traversed: seq<int>, pending: seq<Frontier>) {
    forall a, k | 0 <= a < |g| && 0 <= k < |g[a]| && a in traversed && g[a][k].node !in traversed ::
      EntryAt(g, a, k) in pending
  }

  /** `traversed` and `untraversed` split the cells [0, n) between them. */
  ghost predicate Partition(n: int, traversed: seq<int>, untraversed: seq<int>) {
    (forall c | c in traversed :: 0 <= c < n) &&
    (forall c :: c in untraversed <==> 0 <= c < n && c !in traversed) &&
    Distinct(untraversed)
  }

  /** The state the Prim loop keeps between rounds. */
  ghost predicate PrimLoop(g: seq<seq<Edge>>, traversed: seq<int>, untraversed: seq<int>,
                           mst: seq<Frontier>, pending: seq<Frontier>) {
    traversed == Visited(mst, |mst|) && Partition(|g|, traversed, untraversed) &&
    |untraversed| + |mst| == |g| - 1 && PrimOrder(g, mst) &&
    PendingSound(g, traversed, pending) && PendingComplete(g, traversed, pending)
  }

  /** Accepting the selected edge and pushing the new cell's edges re-establishes the loop state. */
  lemma {:induction false} AcceptPreserves(g: seq<seq<Edge>>, traversed: seq<int>, untraversed: seq<int>,
                                           mst: seq<Frontier>, pending: seq<Frontier>,
                                           m: Frontier, rest: seq<Frontier>, pending': seq<Frontier>)
    requires WellFormed(g) && PrimLoop(g, traversed, untraversed, mst, pending)
    requires m in pending && m.target !in traversed
    requires forall f | f in pending && f.target !in traversed :: LexLeq(m, f)
    requires forall f | f in rest :: f in pending
    requires forall f | f in pending && f.target !in traversed && f != m :: f in rest
    requires m.target in untraversed
    requires |rest| <= |pending'| && pending'[..|rest|] == rest
    requires forall f | f in pending' ::
      f in rest || (f.origin == m.target && Edge(f.weight, f.target) in g[m.target] &&
                    f.target in RemoveFirst(untraversed, m.target))
    requires forall k | 0 <= k < |g[m.target]| && g[m.target][k].node in RemoveFirst(untraversed, m.target) ::
      Frontier(g[m.target][k].weight, m.target, g[m.target][k].node) in pending'
    ensures LightEdge(g, traversed, m)
    ensures PrimLoop(g, traversed + [m.target], RemoveFirst(untraversed, m.target), mst + [m], pending')
  {
    var v := m.target;
    var t' := traversed + [v];
    var u' := RemoveFirst(untraversed, v);
    assert LightEdge(g, traversed, m);
    PrimOrderExtends(g, mst, m);
    VisitedExtends(mst, m);
    RemoveFirstDistinct(untraversed, v);
    assert Partition(|g|, t', u');
    forall f | f in pending' ensures IsEntry(g, f) && f.origin in t' {
      if f in rest {
        assert f in pending;
      }
    }
    forall a, k | 0 <= a < |g| && 0 <= k < |g[a]| && a in t' && g[a][k].node !in t'
      ensures EntryAt(g, a, k) in pending'
    {
      if a == v {
        assert g[a][k].node in u';
      } else {
        assert EntryAt(g, a, k) in pending;
        assert EntryAt(g, a, k) in rest;
        var i :| 0 <= i < |rest| && rest[i] == EntryAt(g, a, k);
        assert pending'[i] == rest[i];
      }
    }
  }

  /** When no cell is left untraversed, the accepted edges form a spanning tree. */
  lemma LoopDone(g: seq<seq<Edge>>, traversed: seq<int>, mst: seq<Frontier>, pending: seq<Frontier>)
    requires |g| >= 1 && PrimLoop(g, traversed, [], mst, pending)
    ensures SpanningTree(g, mst)
  {
  }

  /** Before the first round, cell 0 is traversed and cells 1 .. n - 1 are not. */
  lemma InitialPartition(n: int)
    requires n >= 1
    ensures Partition(n, [0], seq(n - 1, i requires 0 <= i < n - 1 => i + 1))
  {
    var u := seq(n - 1, i requires 0 <= i < n - 1 => i + 1);
    forall c ensures c in u <==> 0 <= c < n && c !in [0] {
      if 0 < c < n {
        assert u[c - 1] == c;
      }
    }
  }

  /**
   * One round of the Prim loop (sort, pop past stale edges, accept, push):
   * the least pending edge into an untraversed cell joins the tree.
   */
  method AcceptRound(ghost height: int, ghost width: int, g: seq<seq<Edge>>,
                     traversed: seq<int>, untraversed: seq<int>, mst: seq<Frontier>, pending: seq<Frontier>)
    returns (traversed': seq<int>, untraversed': seq<int>, mst': seq<Frontier>, pending': seq<Frontier>)
    requires FullGraph(height, width, g) && PrimLoop(g, traversed, untraversed, mst, pending)
    requires |untraversed| > 0
    ensures PrimLoop(g, traversed', untraversed', mst', pending')
    ensures |untraversed'| == |untraversed| - 1
  {
    assert untraversed[0] in untraversed;
    assert 0 in traversed;
    ghost var live := LiveEdgeExists(height, width, g, traversed, pending, untraversed[0]);
    var m, rest := SelectEdge(pending, traversed, live);
    var v := m.target;
    assert IsEntry(g, m);
    untraversed' := RemoveFirst(untraversed, v);
    pending' := PushEdges(rest, v, g[v], untraversed');
    AcceptPreserves(g, traversed, untraversed, mst, pending, m, rest, pending');
    mst' := mst + [m];
    traversed' := traversed + [v];
  }

  /** The pending list starts with every entry of cell 0, in list order. */
  method EdgesOfOrigin(g: seq<seq<Edge>>) returns (pending: seq<Frontier>)
    requires |g| >= 1
    ensures forall f | f in pending :: IsEntry(g, f) && f.origin == 0
    ensures forall t | 0 <= t < |g[0]| :: EntryAt(g, 0, t) in pending
  {
    pending := [];
    for k := 0 to |g[0]|
      invariant forall f | f in pending :: IsEntry(g, f) && f.origin == 0
      invariant forall t | 0 <= t < k :: EntryAt(g, 0, t) in pending
    {
      pending := pending + [EntryAt(g, 0, k)];
    }
  }

  /** Before the first round only cell 0 is traversed and no edge is accepted. */
  lemma InitialLoop(g: seq<seq<Edge>>, untraversed: seq<int>, pending: seq<Frontier>)
    requires |g| >= 1 && untraversed == seq(|g| - 1, i requires 0 <= i < |g| - 1 => i + 1)
    requires forall f | f in pending :: IsEntry(g, f) && f.origin == 0
    requires forall t | 0 <= t < |g[0]| :: EntryAt(g, 0, t) in pending
    ensures PrimLoop(g, [0], untraversed, [], pending)
  {
    InitialPartition(|g|);
    assert [0] == Visited([], 0);
  }

  /** A cut has at most one light edge: the order on (weight, origin, target) is total. */
  lemma LightEdgeUnique(g: seq<seq<Edge>>, reached: seq<int>, f1: Frontier, f2: Frontier)
    requires LightEdge(g, reached, f1) && LightEdge(g, reached, f2)
    ensures f1 == f2
  {
    var k1 :| 0 <= k1 < |g[f1.origin]| && g[f1.origin][k1] == Edge(f1.weight, f1.target);
    var k2 :| 0 <= k2 < |g[f2.origin]| && g[f2.origin][k2] == Edge(f2.weight, f2.target);
    assert EntryAt(g, f1.origin, k1) == f1 && EntryAt(g, f2.origin, k2) == f2;
  }

  /**
   * The graph fixes the tree: two edge lists of the same length, each in
   * Prim order over the same graph, are equal.
   */
  lemma PrimTreeUnique(g: seq<seq<Edge>>, t1: seq<Frontier>, t2: seq<Frontier>)
    requires PrimOrder(g, t1) && PrimOrder(g, t2) && |t1| == |t2|
    ensures t1 == t2
  {
    PrefixUnique(g, t1, t2, |t1|);
  }

  lemma {:induction false} PrefixUnique(g: seq<seq<Edge>>, t1: seq<Frontier>, t2: seq<Frontier>, n: int)
    requires PrimOrder(g, t1) && PrimOrder(g, t2) && 0 <= n <= |t1| == |t2|
    ensures forall t | 0 <= t < n :: t1[t] == t2[t]
    decreases n
  {
    if n > 0 {
      PrefixUnique(g, t1, t2, n - 1);
      var v1, v2 := Visited(t1, n - 1), Visited(t2, n - 1);
      assert v1 == v2 by {
        forall t | 0 <= t < n ensures v1[t] == v2[t] {
          if t > 0 {
            assert v1[t] == t1[t - 1].target && v2[t] == t2[t - 1].target;
          }
        }
      }
      LightEdgeUnique(g, v1, t1[n - 1], t2[n - 1]);
    }
  }

  /**
   * The Prim loop: grow the traversed set from cell 0, each round accepting
   * the least pending edge into an untraversed cell, until no cell is left.
   */
  method SpanningTreeOf(ghost height: int, ghost width: int, g: seq<seq<Edge>>)
    returns (mst: seq<Frontier>)
    requires FullGraph(height, width, g)
    ensures SpanningTree(g, mst)
  {
    var n := |g|;
    var traversed := [0];
    var untraversed := seq(n - 1, i requires 0 <= i < n - 1 => i + 1);
    mst := [];
    var pending := EdgesOfOrigin(g);
    InitialLoop(g, untraversed, pending);
    while |untraversed| > 0
      invariant PrimLoop(g, traversed, untraversed, mst, pending)
      decreases |untraversed|
    {
      traversed, untraversed, mst, pending := AcceptRound(height, width, g, traversed, untraversed, mst, pending);
    }
    LoopDone(g, traversed, mst, pending);
  }
}
