/**
 * Pruning the fully connected maze down to its spanning tree, and what the
 * pruned maze is: a symmetric sub-graph holding exactly the accepted edges,
 * in which every cell can be reached from every other along a simple path.
 */
module Pruning {
  import opened Grid
  import opened Graph

  /** The entries of the list of cell i that are not accepted edges, in their original order. */
  function Dropped(es: seq<Edge>, i: int, tree: seq<Frontier>): seq<Edge> {
    if es == [] then []
    else (if TreeEdge(tree, i, es[0].node) then [] else [es[0]]) + Dropped(es[1..], i, tree)
  }

  /** The elements of `s` that do not occur in `drop`, in their original order. */
  function Without<T(==)>(s: seq<T>, drop: seq<T>): seq<T> {
    if s == [] then [] else (if s[0] in drop then [] else [s[0]]) + Without(s[1..], drop)
  }

  /** Pruning keeps an entry exactly when it is an accepted edge, in either orientation. */
  lemma {:induction false} KeptMembers(es: seq<Edge>, i: int, tree: seq<Frontier>)
    ensures forall e :: e in Kept(es, i, tree) <==> e in es && TreeEdge(tree, i, e.node)
  {
    if es != [] {
      KeptMembers(es[1..], i, tree);
      assert es == [es[0]] + es[1..];
    }
  }

  /** The removal list holds exactly the entries that are not accepted edges. */
  lemma {:induction false} DroppedMembers(es: seq<Edge>, i: int, tree: seq<Frontier>)
    ensures forall e :: e in Dropped(es, i, tree) <==> e in es && !TreeEdge(tree, i, e.node)
  {
    if es != [] {
      DroppedMembers(es[1..], i, tree);
      assert es == [es[0]] + es[1..];
    }
  }

  /** Pruning only deletes entries: what is kept is a sub-list of the original. */
  lemma {:induction false} KeptSubList(es: seq<Edge>, i: int, tree: seq<Frontier>)
    ensures SubList(Kept(es, i, tree), es)
  {
    if es != [] {
      KeptSubList(es[1..], i, tree);
      var k := Kept(es[1..], i, tree);
      if TreeEdge(tree, i, es[0].node) {
        assert Kept(es, i, tree) == [es[0]] + k;
        assert ([es[0]] + k)[1..] == k;
      } else {
        assert Kept(es, i, tree) == k;
        if k != [] {
          assert SubList(k, es[1..]);
        }
      }
    }
  }

  lemma {:induction false} WithoutMembers<T>(s: seq<T>, drop: seq<T>)
    ensures forall x :: x in Without(s, drop) <==> x in s && x !in drop
  {
    if s != [] {
      WithoutMembers(s[1..], drop);
      assert s == [s[0]] + s[1..];
    }
  }

  lemma {:induction false} TailDistinct<T>(s: seq<T>)
    requires s != [] && Distinct(s)
    ensures Distinct(s[1..]) && s[0] !in s[1..]
  {
    forall a, b | 0 <= a < b < |s| - 1 ensures s[1..][a] != s[1..][b] {
      assert s[1..][a] == s[a + 1] && s[1..][b] == s[b + 1];
    }
    forall t | 0 <= t < |s| - 1 ensures s[1..][t] != s[0] {
      assert s[1..][t] == s[t + 1];
    }
  }

  lemma ConsDistinct<T>(x: T, s: seq<T>)
    requires Distinct(s) && x !in s
    ensures Distinct([x] + s)
  {
    forall a, b | 0 <= a < b < |s| + 1 ensures ([x] + s)[a] != ([x] + s)[b] {
      assert ([x] + s)[b] == s[b - 1] && s[b - 1] in s;
    }
  }

  /** Filtering a list without repetitions leaves a list without repetitions. */
  lemma {:induction false} WithoutDistinct<T>(s: seq<T>, drop: seq<T>)
    requires Distinct(s)
    ensures Distinct(Without(s, drop))
  {
    if s != [] {
      TailDistinct(s);
      WithoutDistinct(s[1..], drop);
      WithoutMembers(s[1..], drop);
      if s[0] !in drop {
        ConsDistinct(s[0], Without(s[1..], drop));
      }
    }
  }

  lemma {:induction false} DroppedDistinct(es: seq<Edge>, i: int, tree: seq<Frontier>)
    requires Distinct(es)
    ensures Distinct(Dropped(es, i, tree))
  {
    if es != [] {
      TailDistinct(es);
      DroppedDistinct(es[1..], i, tree);
      DroppedMembers(es[1..], i, tree);
      if !TreeEdge(tree, i, es[0].node) {
        ConsDistinct(es[0], Dropped(es[1..], i, tree));
      }
    }
  }

  /** Removing the one occurrence of x from a list without repetitions filters x out. */
  lemma {:induction false} RemoveFirstIsWithout<T>(s: seq<T>, x: T)
    requires Distinct(s) && x in s
    ensures RemoveFirst(s, x) == Without(s, [x])
  {
    TailDistinct(s);
    if s[0] == x {
      WithoutNone(s[1..], [x]);
    } else {
      RemoveFirstIsWithout(s[1..], x);
    }
  }

  lemma {:induction false} WithoutNone<T>(s: seq<T>, drop: seq<T>)
    requires forall x | x in s :: x !in drop
    ensures Without(s, drop) == s
  {
    if s != [] {
      WithoutNone(s[1..], drop);
      assert s == [s[0]] + s[1..];
    }
  }

  /** Filtering out `drop` and then x is filtering out `drop + [x]`. */
  lemma {:induction false} WithoutTwice<T>(s: seq<T>, drop: seq<T>, x: T)
    ensures Without(Without(s, drop), [x]) == Without(s, drop + [x])
  {
    if s != [] {
      WithoutTwice(s[1..], drop, x);
      var w := Without(s[1..], drop);
      assert s[0] in drop + [x] <==> s[0] in drop || s[0] == x;
      if s[0] !in drop {
        assert Without(s, drop) == [s[0]] + w;
        assert ([s[0]] + w)[1..] == w;
        assert Without([s[0]] + w, [x]) == (if s[0] in [x] then [] else [s[0]]) + Without(w, [x]);
      } else {
        assert Without(s, drop) == w;
        assert Without(s, drop + [x]) == Without(s[1..], drop + [x]);
      }
    }
  }

  /** Filtering out a list that holds exactly the rejected entries is pruning. */
  lemma {:induction false} WithoutIsKept(es: seq<Edge>, i: int, tree: seq<Frontier>, drop: seq<Edge>)
    requires forall e | e in es :: e in drop <==> !TreeEdge(tree, i, e.node)
    ensures Without(es, drop) == Kept(es, i, tree)
  {
    if es != [] {
      assert es[0] in es;
      assert forall e | e in es[1..] :: e in es;
      WithoutIsKept(es[1..], i, tree, drop);
    }
  }

  /** A neighbour list without repeated neighbours has no repeated entries. */
  lemma EntriesDistinct(es: seq<Edge>)
    requires Distinct(Nodes(es))
    ensures Distinct(es)
  {
    forall a, b | 0 <= a < b < |es| ensures es[a] != es[b] {
      assert Nodes(es)[a] != Nodes(es)[b];
    }
  }

  /** An entry that is present gives a link. */
  lemma EntryLinks(g: seq<seq<Edge>>, a: int, e: Edge)
    requires 0 <= a < |g| && e in g[a]
    ensures Linked(g, a, e.node)
  {
    var k :| 0 <= k < |g[a]| && g[a][k] == e;
  }

  /** Pruning a symmetric graph gives a symmetric graph whose entries all lie on the grid. */
  lemma PrunedSymmetric(g: seq<seq<Edge>>, tree: seq<Frontier>)
    requires WellFormed(g) && Symmetric(g)
    ensures WellFormed(Pruned(g, tree)) && Symmetric(Pruned(g, tree))
  {
    var p: seq<seq<Edge>> := Pruned(g, tree);
    forall a, k | 0 <= a < |p| && 0 <= k < |p[a]| ensures 0 <= p[a][k].node < |p| {
      KeptMembers(g[a], a, tree);
      assert p[a][k] in p[a];
      var t :| 0 <= t < |g[a]| && g[a][t] == p[a][k];
    }
    forall a, k | 0 <= a < |p| && 0 <= k < |p[a]| ensures Edge(p[a][k].weight, a) in p[p[a][k].node] {
      var e := p[a][k];
      KeptMembers(g[a], a, tree);
      assert e in p[a];
      var t :| 0 <= t < |g[a]| && g[a][t] == e;
      assert Edge(e.weight, a) in g[e.node];
      KeptMembers(g[e.node], e.node, tree);
      var s :| 0 <= s < |tree| &&
        ((tree[s].origin == a && tree[s].target == e.node) || (tree[s].target == a && tree[s].origin == e.node));
      assert TreeEdge(tree, e.node, a);
    }
  }

  /** A link of a symmetric graph can be followed backwards. */
  lemma LinkedBack(g: seq<seq<Edge>>, a: int, b: int)
    requires WellFormed(g) && Symmetric(g) && Linked(g, a, b)
    ensures Linked(g, b, a)
  {
    var k :| 0 <= k < |g[a]| && g[a][k].node == b;
    EntryLinks(g, b, Edge(g[a][k].weight, a));
  }

  /** Cells reached after k accepted edges are still reached after more of them. */
  lemma VisitedGrows(tree: seq<Frontier>, k: int, m: int, c: int)
    requires 0 <= k <= m <= |tree| && c in Visited(tree, k)
    ensures c in Visited(tree, m)
  {
    var t :| 0 <= t < k + 1 && Visited(tree, k)[t] == c;
    assert Visited(tree, m)[t] == c;
  }

  /** Each accepted edge is an entry from a reached cell to a cell not reached before it. */
  ghost predicate Grows(g: seq<seq<Edge>>, tree: seq<Frontier>) {
    forall k | 0 <= k < |tree| ::
      IsEntry(g, tree[k]) && tree[k].origin in Visited(tree, k) && tree[k].target !in Visited(tree, k)
  }

  lemma OrderGrows(g: seq<seq<Edge>>, tree: seq<Frontier>)
    requires PrimOrder(g, tree)
    ensures Grows(g, tree)
  {
    forall k | 0 <= k < |tree| ensures IsEntry(g, tree[k]) && tree[k].origin in Visited(tree, k) {
      assert LightEdge(g, Visited(tree, k), tree[k]);
    }
  }

  /**
   * Every cell reached by the first k accepted edges is joined to cell 0 in
   * the pruned maze by a simple path through cells reached by those edges.
   */
  lemma {:induction false} PathFromOrigin(g: seq<seq<Edge>>, tree: seq<Frontier>, k: int, v: int)
    returns (p: seq<int>)
    requires |g| >= 1 && Grows(g, tree) && 0 <= k <= |tree| && v in Visited(tree, k)
    ensures PathBetween(Pruned(g, tree), p, 0, v)
    ensures forall c | c in p :: c in Visited(tree, k)
    decreases k
  {
    var vis := Visited(tree, k);
    var t0 :| 0 <= t0 < |vis| && vis[t0] == v;
    if t0 == 0 {
      p := [0];
      return;
    }
    var t := t0 - 1;
    var f := tree[t];
    var q := PathFromOrigin(g, tree, t, f.origin);
    p := q + [v];
    forall c | c in p ensures c in vis {
      if c in q {
        VisitedGrows(tree, t, k, c);
      }
    }
    assert v == f.target && v !in Visited(tree, t);
    assert v !in q;
    PathExtends(Pruned(g, tree), q, v);
    AcceptedIsLinked(g, tree, t);
  }

  /** Every accepted edge survives pruning. */
  lemma AcceptedIsLinked(g: seq<seq<Edge>>, tree: seq<Frontier>, t: int)
    requires 0 <= t < |tree| && IsEntry(g, tree[t])
    ensures Linked(Pruned(g, tree), tree[t].origin, tree[t].target)
  {
    var f := tree[t];
    KeptMembers(g[f.origin], f.origin, tree);
    assert TreeEdge(tree, f.origin, f.target);
    assert Edge(f.weight, f.target) in Kept(g[f.origin], f.origin, tree);
    EntryLinks(Pruned(g, tree), f.origin, Edge(f.weight, f.target));
  }

  /** Appending a new cell linked to the last one extends a simple path. */
  lemma PathExtends(g: seq<seq<Edge>>, q: seq<int>, v: int)
    requires SimplePath(g, q) && v !in q
    ensures Distinct(q + [v]) && (Linked(g, q[|q| - 1], v) ==> SimplePath(g, q + [v]))
  {
    var p := q + [v];
    forall a, b | 0 <= a < b < |p| ensures p[a] != p[b] {
      if b == |q| {
        assert p[a] == q[a] && q[a] in q;
      } else {
        assert p[a] == q[a] && p[b] == q[b];
      }
    }
    if Linked(g, q[|q| - 1], v) {
      forall t | 0 <= t < |p| - 1 ensures Linked(g, p[t], p[t + 1]) {
        if t < |q| - 1 {
          assert p[t] == q[t] && p[t + 1] == q[t + 1];
        }
      }
    }
  }

  function Reverse<T>(s: seq<T>): (r: seq<T>)
    ensures |r| == |s| && forall t | 0 <= t < |s| :: r[t] == s[|s| - 1 - t]
  {
    seq(|s|, t requires 0 <= t < |s| => s[|s| - 1 - t])
  }

  /** In a symmetric graph a simple path can be walked backwards. */
  lemma ReversePath(g: seq<seq<Edge>>, p: seq<int>)
    requires WellFormed(g) && Symmetric(g) && SimplePath(g, p)
    ensures SimplePath(g, Reverse(p))
  {
    var r := Reverse(p);
    forall t | 0 <= t < |r| - 1 ensures Linked(g, r[t], r[t + 1]) {
      var u := |p| - 2 - t;
      assert Linked(g, p[u], p[u + 1]);
      LinkedBack(g, p[u], p[u + 1]);
    }
    if |p| == 1 {
      assert r[0] == p[0];
    } else {
      LinkedBack(g, p[|p| - 2], p[|p| - 1]);
    }
  }

  /**
   * Two simple paths leaving the same cell give a simple path between their
   * ends: walk the first one backwards until it meets the second, then
   * follow the second.
   */
  lemma {:induction false} JoinPaths(g: seq<seq<Edge>>, pa: seq<int>, pb: seq<int>) returns (r: seq<int>)
    requires WellFormed(g) && Symmetric(g) && SimplePath(g, pa) && SimplePath(g, pb) && pa[0] == pb[0]
    ensures PathBetween(g, r, pa[|pa| - 1], pb[|pb| - 1])
  {
    var ra := Reverse(pa);
    ReversePath(g, pa);
    assert ra[|ra| - 1] in pb;
    var i := FirstShared(ra, pb);
    var j :| 0 <= j < |pb| && pb[j] == ra[i];
    r := ra[..i] + pb[j..];
    Splice(g, ra, pb, i, j);
  }

  /** The first position of `s` holding an element of `other`. */
  lemma FirstShared(s: seq<int>, other: seq<int>) returns (i: int)
    requires exists t | 0 <= t < |s| :: s[t] in other
    ensures 0 <= i < |s| && s[i] in other && forall t | 0 <= t < i :: s[t] !in other
  {
    i := 0;
    while s[i] !in other
      invariant 0 <= i < |s| && forall t | 0 <= t < i :: s[t] !in other
      invariant exists t | i <= t < |s| :: s[t] in other
      decreases |s| - i
    {
      i := i + 1;
    }
  }

  /** The spliced walk of `JoinPaths` is a simple path. */
  lemma Splice(g: seq<seq<Edge>>, ra: seq<int>, pb: seq<int>, i: int, j: int)
    requires SimplePath(g, ra) && SimplePath(g, pb)
    requires 0 <= i < |ra| && 0 <= j < |pb| && pb[j] == ra[i]
    requires forall t | 0 <= t < i :: ra[t] !in pb
    ensures PathBetween(g, ra[..i] + pb[j..], ra[0], pb[|pb| - 1])
  {
    var r := ra[..i] + pb[j..];
    forall a, b | 0 <= a < b < |r| ensures r[a] != r[b] {
      if b < i {
        assert r[a] == ra[a] && r[b] == ra[b];
      } else if a < i {
        assert r[a] == ra[a] && r[b] == pb[j + b - i] && pb[j + b - i] in pb;
      } else {
        assert r[a] == pb[j + a - i] && r[b] == pb[j + b - i];
      }
    }
    forall t | 0 <= t < |r| - 1 ensures Linked(g, r[t], r[t + 1]) {
      if t + 1 < i {
        assert r[t] == ra[t] && r[t + 1] == ra[t + 1];
      } else if t + 1 == i {
        assert r[t] == ra[t] && r[t + 1] == ra[t + 1];
      } else {
        assert r[t] == pb[j + t - i] && r[t + 1] == pb[j + t + 1 - i];
      }
    }
    if i == 0 {
      assert r[0] == pb[j] == ra[0];
    } else {
      assert r[0] == ra[0];
    }
  }

  /**
   * The pruned maze is a perfect maze's graph: between any two cells there
   * is a simple path along kept entries.
   */
  lemma PrunedConnected(g: seq<seq<Edge>>, tree: seq<Frontier>, a: int, b: int) returns (r: seq<int>)
    requires WellFormed(g) && Symmetric(g) && SpanningTree(g, tree)
    requires 0 <= a < |g| && 0 <= b < |g|
    ensures PathBetween(Pruned(g, tree), r, a, b)
  {
    PrunedSymmetric(g, tree);
    OrderGrows(g, tree);
    var pa := PathFromOrigin(g, tree, |tree|, a);
    var pb := PathFromOrigin(g, tree, |tree|, b);
    r := JoinPaths(Pruned(g, tree), pa, pb);
  }

  lemma {:induction false} DroppedSnoc(es: seq<Edge>, x: Edge, i: int, tree: seq<Frontier>)
    ensures Dropped(es + [x], i, tree) == Dropped(es, i, tree) + (if TreeEdge(tree, i, x.node) then [] else [x])
  {
    if es == [] {
      assert [] + [x] == [x];
      assert [x][1..] == [];
    } else {
      var head := if TreeEdge(tree, i, es[0].node) then [] else [es[0]];
      var last := if TreeEdge(tree, i, x.node) then [] else [x];
      assert (es + [x])[0] == es[0] && (es + [x])[1..] == es[1..] + [x];
      assert Dropped(es + [x], i, tree) == head + Dropped(es[1..] + [x], i, tree);
      DroppedSnoc(es[1..], x, i, tree);
      assert Dropped(es, i, tree) == head + Dropped(es[1..], i, tree);
      assert head + (Dropped(es[1..], i, tree) + last) == (head + Dropped(es[1..], i, tree)) + last;
    }
  }

  /**
   * The inner search of pruning: does some accepted edge join i and j, in
   * either orientation? The scan stops at the first match.
   */
  method IsTreeEdge(mst: seq<Frontier>, i: int, j: int) returns (found: bool)
    ensures found <==> TreeEdge(mst, i, j)
  {
    found := false;
    for k := 0 to |mst|
      invariant forall s | 0 <= s < k ::
        !((mst[s].origin == i && mst[s].target == j) || (mst[s].target == i && mst[s].origin == j))
    {
      if (mst[k].origin == i && mst[k].target == j) || (mst[k].target == i && mst[k].origin == j) {
        found := true;
        return;
      }
    }
  }

  /** The removal list of one cell: its entries that no accepted edge matches, in order. */
  method RejectedEdges(es: seq<Edge>, i: int, mst: seq<Frontier>) returns (removed: seq<Edge>)
    ensures removed == Dropped(es, i, mst)
  {
    removed := [];
    for k := 0 to |es|
      invariant removed == Dropped(es[..k], i, mst)
    {
      var keep := IsTreeEdge(mst, i, es[k].node);
      DroppedSnoc(es[..k], es[k], i, mst);
      assert es[..k + 1] == es[..k] + [es[k]];
      if !keep {
        removed := removed + [es[k]];
      }
    }
    assert es[..|es|] == es;
  }

  /** Pruning the full grid graph: an entry from i to j survives exactly when {i, j} is an accepted edge. */
  lemma PrunedLeadsTo(height: int, width: int, g: seq<seq<Edge>>, tree: seq<Frontier>, i: int, j: int)
    requires FullGraph(height, width, g) && 0 <= i < |g|
    ensures Linked(Pruned(g, tree), i, j) <==> Adjacent(height, width, i, j) && TreeEdge(tree, i, j)
  {
    var p := Pruned(g, tree);
    KeptMembers(g[i], i, tree);
    AdjacentNodesCorrect(height, width, i);
    if Linked(p, i, j) {
      var k :| 0 <= k < |p[i]| && p[i][k].node == j;
      assert p[i][k] in p[i];
      var t :| 0 <= t < |g[i]| && g[i][t] == p[i][k];
      assert Nodes(g[i])[t] == j;
    }
    if Adjacent(height, width, i, j) && TreeEdge(tree, i, j) {
      assert j in Nodes(g[i]);
      var t :| 0 <= t < |g[i]| && Nodes(g[i])[t] == j;
      assert g[i][t] in p[i];
      EntryLinks(p, i, g[i][t]);
    }
  }

  /** A sub-list of a list of entries with distinct neighbours has distinct neighbours. */
  lemma {:induction false} SubListNodesDistinct(a: seq<Edge>, b: seq<Edge>)
    requires SubList(a, b) && Distinct(Nodes(b))
    ensures Distinct(Nodes(a))
  {
    if a != [] && b != [] {
      assert Distinct(Nodes(b[1..])) by {
        forall x, y | 0 <= x < y < |b| - 1 ensures Nodes(b[1..])[x] != Nodes(b[1..])[y] {
          assert Nodes(b)[x + 1] != Nodes(b)[y + 1];
        }
      }
      if a[0] == b[0] && SubList(a[1..], b[1..]) {
        SubListNodesDistinct(a[1..], b[1..]);
        SubListMembers(a[1..], b[1..]);
        forall x, y | 0 <= x < y < |a| ensures Nodes(a)[x] != Nodes(a)[y] {
          if x == 0 {
            assert a[y] == a[1..][y - 1] && a[1..][y - 1] in a[1..];
            var s :| 0 <= s < |b| - 1 && b[1..][s] == a[y];
            assert Nodes(b)[0] != Nodes(b)[s + 1];
          } else {
            assert Nodes(a[1..])[x - 1] != Nodes(a[1..])[y - 1];
          }
        }
      } else {
        SubListNodesDistinct(a, b[1..]);
      }
    }
  }

  lemma {:induction false} SubListMembers<T>(a: seq<T>, b: seq<T>)
    requires SubList(a, b)
    ensures forall x | x in a :: x in b
  {
    if a != [] && b != [] {
      if a[0] == b[0] && SubList(a[1..], b[1..]) {
        SubListMembers(a[1..], b[1..]);
        assert a == [a[0]] + a[1..];
      } else {
        SubListMembers(a, b[1..]);
      }
    }
  }
}
