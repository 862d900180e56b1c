/**
 * Construction of the fully connected weighted maze and the choice of the
 * entrance and destination cells. The random source is replaced by its
 * draws: `draws(k)` is the k-th weight drawn from [1, 1000], and the four
 * position draws and the two choices are parameters.
 */
module Build {
  import opened Grid
  import opened Graph

  /**
   * The search for the weight already stored on a lower-numbered
   * neighbour: the weight of the first entry of `es` leading to `target`,
   * or the fresh draw when there is none.
   */
  method ReusedWeight(es: seq<Edge>, target: int, drawn: int) returns (weight: int)
    ensures (exists t | 0 <= t < |es| :: es[t].node == target) ==>
      exists t | 0 <= t < |es| :: es[t] == Edge(weight, target) && forall s | 0 <= s < t :: es[s].node != target
    ensures (forall t | 0 <= t < |es| :: es[t].node != target) ==> weight == drawn
  {
    weight := drawn;
    for t := 0 to |es|
      invariant forall s | 0 <= s < t :: es[s].node != target
    {
      if es[t].node == target {
        weight := es[t].weight;
        return;
      }
    }
  }

  /** The list of cell c names exactly the grid neighbours of c, in enumeration order. */
  ghost predicate ListsNeighbours(height: int, width: int, g: seq<seq<Edge>>, c: int)
    requires ValidDims(height, width) && 0 <= c < |g|
  {
    Nodes(g[c]) == AdjacentNodes(height, width, c)
  }

  /** Lists of cells [0, i) are complete, the rest are still empty. */
  ghost predicate Built(height: int, width: int, g: seq<seq<Edge>>, i: int) {
    ValidDims(height, width) && |g| == height * width && 0 <= i <= |g| &&
    (forall c {:trigger ListsNeighbours(height, width, g, c)} | 0 <= c < i :: ListsNeighbours(height, width, g, c)) &&
    (forall c | i <= c < |g| :: g[c] == []) &&
    (forall c, t | 0 <= c < i && 0 <= t < |g[c]| :: 1 <= g[c][t].weight <= 1000) &&
    (forall c, t | 0 <= c < i && 0 <= t < |g[c]| && 0 <= g[c][t].node < i ::
       Edge(g[c][t].weight, c) in g[g[c][t].node])
  }

  /** While cell i is being filled: cells below i are complete, cells above i still empty. */
  ghost predicate Below(height: int, width: int, g: seq<seq<Edge>>, i: int) {
    ValidDims(height, width) && |g| == height * width && 0 <= i < |g| &&
    (forall c {:trigger ListsNeighbours(height, width, g, c)} | 0 <= c < i :: ListsNeighbours(height, width, g, c)) &&
    (forall c | i < c < |g| :: g[c] == []) &&
    (forall c, t | 0 <= c < i && 0 <= t < |g[c]| :: 1 <= g[c][t].weight <= 1000) &&
    (forall c, t | 0 <= c < i && 0 <= t < |g[c]| && 0 <= g[c][t].node < i ::
       Edge(g[c][t].weight, c) in g[g[c][t].node])
  }

  /**
   * Cell i, whose neighbours are `adj`, has received entries for the first p
   * of them; every entry towards a lower cell and every entry of a visited
   * lower neighbour towards i is mirrored.
   */
  ghost predicate Current(height: int, width: int, g: seq<seq<Edge>>, i: int, adj: seq<int>, p: int) {
    ValidDims(height, width) && |g| == height * width && 0 <= i < |g| &&
    adj == AdjacentNodes(height, width, i) && Distinct(adj) &&
    (forall q | 0 <= q < |adj| :: 0 <= adj[q] < |g|) &&
    0 <= p <= |adj| &&
    Nodes(g[i]) == adj[..p] &&
    (forall t | 0 <= t < |g[i]| :: 1 <= g[i][t].weight <= 1000) &&
    (forall t | 0 <= t < |g[i]| && 0 <= g[i][t].node < i :: Edge(g[i][t].weight, i) in g[g[i][t].node]) &&
    (forall q, t | 0 <= q < p && adj[q] < i && 0 <= t < |g[adj[q]]| && g[adj[q]][t].node == i ::
       Edge(g[adj[q]][t].weight, adj[q]) in g[i])
  }

  ghost predicate Building(height: int, width: int, g: seq<seq<Edge>>, i: int, adj: seq<int>, p: int) {
    Below(height, width, g, i) && Current(height, width, g, i, adj, p)
  }

  lemma StartCell(height: int, width: int, g: seq<seq<Edge>>, i: int)
    requires Built(height, width, g, i) && i < |g|
    ensures Building(height, width, g, i, AdjacentNodes(height, width, i), 0)
  {
    AdjacentNodesCorrect(height, width, i);
    var adj := AdjacentNodes(height, width, i);
    forall q | 0 <= q < |adj| ensures 0 <= adj[q] < |g| {
      assert adj[q] in adj;
    }
  }

  /** Changing only the list of cell i leaves the lower cells' state alone. */
  lemma BelowFrame(height: int, width: int, g: seq<seq<Edge>>, g': seq<seq<Edge>>, i: int)
    requires Below(height, width, g, i)
    requires |g'| == |g| && forall c | 0 <= c < |g| && c != i :: g'[c] == g[c]
    ensures Below(height, width, g', i)
  {
    forall c | 0 <= c < i ensures ListsNeighbours(height, width, g', c) {
      assert ListsNeighbours(height, width, g, c);
    }
  }

  /** The entry appended for neighbour p keeps the construction state of cell i. */
  lemma {:induction false} StepCell(height: int, width: int, g: seq<seq<Edge>>, i: int, adj: seq<int>, p: int,
                                    weight: int)
    requires Building(height, width, g, i, adj, p) && p < |adj|
    requires 1 <= weight <= 1000
    requires adj[p] < i ==> exists t | 0 <= t < |g[adj[p]]| :: g[adj[p]][t] == Edge(weight, i)
    ensures Building(height, width, g[i := g[i] + [Edge(weight, adj[p])]], i, adj, p + 1)
  {
    var j := adj[p];
    var g' := g[i := g[i] + [Edge(weight, j)]];
    BelowFrame(height, width, g, g', i);
    assert Nodes(g'[i]) == adj[..p + 1] by {
      assert Nodes(g'[i]) == Nodes(g[i]) + [j];
      assert adj[..p + 1] == adj[..p] + [j];
    }
    if j < i {
      MirrorOfLower(height, width, g, i, adj, p, weight);
    }
    MirrorInStep(g, g', i, adj, p, weight);
    MirrorOutStep(g, g', i, j, weight);
  }

  /** Entries of visited lower neighbours towards i stay mirrored in the list of i. */
  lemma MirrorInStep(g: seq<seq<Edge>>, g': seq<seq<Edge>>, i: int, adj: seq<int>, p: int, weight: int)
    requires 0 <= i < |g| && 0 <= p < |adj| && forall q | 0 <= q < |adj| :: 0 <= adj[q] < |g|
    requires g' == g[i := g[i] + [Edge(weight, adj[p])]]
    requires forall q, t | 0 <= q < p && adj[q] < i && 0 <= t < |g[adj[q]]| && g[adj[q]][t].node == i ::
      Edge(g[adj[q]][t].weight, adj[q]) in g[i]
    requires adj[p] < i ==> forall t | 0 <= t < |g[adj[p]]| && g[adj[p]][t].node == i :: g[adj[p]][t].weight == weight
    ensures forall q, t | 0 <= q < p + 1 && adj[q] < i && 0 <= t < |g'[adj[q]]| && g'[adj[q]][t].node == i ::
        Edge(g'[adj[q]][t].weight, adj[q]) in g'[i]
  {
    forall q, t | 0 <= q < p + 1 && adj[q] < i && 0 <= t < |g'[adj[q]]| && g'[adj[q]][t].node == i
      ensures Edge(g'[adj[q]][t].weight, adj[q]) in g'[i]
    {
      assert g'[adj[q]] == g[adj[q]];
      if q < p {
        assert Edge(g[adj[q]][t].weight, adj[q]) in g[i];
      }
    }
  }

  /** Entries of i towards lower cells stay mirrored in those cells. */
  lemma MirrorOutStep(g: seq<seq<Edge>>, g': seq<seq<Edge>>, i: int, j: int, weight: int)
    requires 0 <= i < |g| && g' == g[i := g[i] + [Edge(weight, j)]]
    requires forall t | 0 <= t < |g[i]| && 0 <= g[i][t].node < i :: Edge(g[i][t].weight, i) in g[g[i][t].node]
    requires 0 <= j < i ==> Edge(weight, i) in g[j]
    ensures forall t | 0 <= t < |g'[i]| && 0 <= g'[i][t].node < i :: Edge(g'[i][t].weight, i) in g'[g'[i][t].node]
  {
    forall t | 0 <= t < |g'[i]| && 0 <= g'[i][t].node < i ensures Edge(g'[i][t].weight, i) in g'[g'[i][t].node] {
      if t < |g[i]| {
        assert g'[i][t] == g[i][t];
      } else {
        assert g'[i][t] == Edge(weight, j);
      }
    }
  }

  /** The entry of a lower neighbour j towards i is mirrored by the entry appended for j. */
  lemma MirrorOfLower(height: int, width: int, g: seq<seq<Edge>>, i: int, adj: seq<int>, p: int, weight: int)
    requires Building(height, width, g, i, adj, p) && p < |adj| && adj[p] < i
    requires exists t | 0 <= t < |g[adj[p]]| :: g[adj[p]][t] == Edge(weight, i)
    ensures forall t | 0 <= t < |g[adj[p]]| && g[adj[p]][t].node == i :: g[adj[p]][t].weight == weight
  {
    var j := adj[p];
    assert ListsNeighbours(height, width, g, j);
    AdjacentNodesCorrect(height, width, j);
    forall t | 0 <= t < |g[j]| && g[j][t].node == i ensures g[j][t].weight == weight {
      var t0 :| 0 <= t0 < |g[j]| && g[j][t0] == Edge(weight, i);
      assert Nodes(g[j])[t] == Nodes(g[j])[t0];
    }
  }

  /** A lower-numbered neighbour of cell i already holds an entry for i. */
  lemma LowerNeighbourListsCell(height: int, width: int, g: seq<seq<Edge>>, i: int, adj: seq<int>, p: int)
    requires Building(height, width, g, i, adj, p) && p < |adj| && adj[p] < i
    ensures exists t | 0 <= t < |g[adj[p]]| :: g[adj[p]][t].node == i
  {
    var j := adj[p];
    AdjacentNodesSymmetric(height, width, i, j);
    assert ListsNeighbours(height, width, g, j);
    assert i in Nodes(g[j]);
  }

  /** With every neighbour of cell i entered, cells [0, i] are complete and mirrored. */
  lemma {:induction false} FinishCell(height: int, width: int, g: seq<seq<Edge>>, i: int, adj: seq<int>)
    requires Building(height, width, g, i, adj, |adj|)
    ensures Built(height, width, g, i + 1)
  {
    assert Nodes(g[i]) == adj;
    assert ListsNeighbours(height, width, g, i);
    forall c, t | 0 <= c < i && 0 <= t < |g[c]| && g[c][t].node == i
      ensures Edge(g[c][t].weight, c) in g[i]
    {
      assert ListsNeighbours(height, width, g, c);
      assert i in AdjacentNodes(height, width, c) by {
        assert Nodes(g[c])[t] == i;
      }
      AdjacentNodesSymmetric(height, width, c, i);
      var q :| 0 <= q < |adj| && adj[q] == c;
    }
  }

  /** With every cell complete, the graph is the full weighted grid graph. */
  lemma {:induction false} BuiltIsFull(height: int, width: int, g: seq<seq<Edge>>)
    requires Built(height, width, g, |g|)
    ensures FullGraph(height, width, g)
  {
    forall a | 0 <= a < |g| ensures Nodes(g[a]) == AdjacentNodes(height, width, a) {
      assert ListsNeighbours(height, width, g, a);
    }
    forall a, k | 0 <= a < |g| && 0 <= k < |g[a]| ensures 0 <= g[a][k].node < |g| {
      assert ListsNeighbours(height, width, g, a);
      AdjacentNodesCorrect(height, width, a);
      assert Nodes(g[a])[k] in AdjacentNodes(height, width, a);
    }
  }

  /** The number of weights drawn before the round of cell i: one per entry of every earlier cell. */
  function DrawsBefore(height: int, width: int, i: int): nat
    requires ValidDims(height, width)
    decreases i
  {
    if i <= 0 then 0 else DrawsBefore(height, width, i - 1) + |AdjacentNodes(height, width, i - 1)|
  }

  /**
   * In cells [0, n), entry p of cell c towards a higher-numbered neighbour
   * carries the draw numbered `DrawsBefore(c) + p`.
   */
  ghost predicate DrawnFrom(height: int, width: int, g: seq<seq<Edge>>, draws: nat -> int, n: int)
    requires ValidDims(height, width)
  {
    forall c, p | 0 <= c < n && c < |g| && 0 <= p < |g[c]| && g[c][p].node > c ::
      g[c][p].weight == draws(DrawsBefore(height, width, c) + p)
  }

  /**
   * One round of the construction loop: cell i gets one entry per grid
   * neighbour; a neighbour with a lower index passes on the weight it
   * already stored, every other entry keeps its fresh draw. A draw is
   * consumed for every entry, and no other cell's list changes.
   */
  method ConnectCell(height: int, width: int, g: array<seq<Edge>>, i: int, draws: nat -> int, drawn: nat)
    returns (drawn': nat)
    requires Built(height, width, g[..], i) && i < g.Length
    requires forall k: nat :: 1 <= draws(k) <= 1000
    modifies g
    ensures Built(height, width, g[..], i + 1)
    ensures drawn' == drawn + |AdjacentNodes(height, width, i)|
    ensures forall p | 0 <= p < |g[i]| && g[i][p].node > i :: g[i][p].weight == draws(drawn + p)
    ensures forall c | 0 <= c < g.Length && c != i :: g[c] == old(g[c])
  {
    var adj := AdjacentNodes(height, width, i);
    StartCell(height, width, g[..], i);
    drawn' := drawn;
    for p := 0 to |adj|
      invariant Building(height, width, g[..], i, adj, p)
      invariant drawn' == drawn + p
      invariant forall q | 0 <= q < |g[i]| && g[i][q].node > i :: g[i][q].weight == draws(drawn + q)
      invariant forall c | 0 <= c < g.Length && c != i :: g[c] == old(g[c])
    {
      ghost var before := g[..];
      assert |before[i]| == p by {
        assert |Nodes(before[i])| == |adj[..p]|;
      }
      var weight := AddEntry(height, width, g, i, adj, p, draws, drawn');
      DrawStep(before[i], Edge(weight, adj[p]), i, draws, drawn);
      drawn' := drawn' + 1;
    }
    FinishCell(height, width, g[..], i, adj);
  }

  /**
   * The entry of cell i for its neighbour adj[p]: the draw numbered `drawn`,
   * replaced by the weight already stored when the neighbour is lower.
   */
  method AddEntry(height: int, width: int, g: array<seq<Edge>>, i: int, adj: seq<int>, p: int,
                  draws: nat -> int, drawn: nat)
    returns (weight: int)
    requires Building(height, width, g[..], i, adj, p) && p < |adj|
    requires forall k: nat :: 1 <= draws(k) <= 1000
    modifies g
    ensures Building(height, width, g[..], i, adj, p + 1)
    ensures g[i] == old(g[i]) + [Edge(weight, adj[p])]
    ensures adj[p] > i ==> weight == draws(drawn)
    ensures forall c | 0 <= c < g.Length && c != i :: g[c] == old(g[c])
  {
    var node := adj[p];
    weight := draws(drawn);
    if node < i {
      LowerNeighbourListsCell(height, width, g[..], i, adj, p);
      weight := ReusedWeight(g[node], i, weight);
    }
    StepCell(height, width, g[..], i, adj, p, weight);
    ghost var before := g[..];
    g[i] := g[i] + [Edge(weight, node)];
    assert g[..] == before[i := before[i] + [Edge(weight, node)]];
  }

  /** Appending an entry that carries the next draw keeps every entry towards a higher cell on its own draw. */
  lemma DrawStep(es: seq<Edge>, e: Edge, i: int, draws: nat -> int, drawn: nat)
    requires forall q | 0 <= q < |es| && es[q].node > i :: es[q].weight == draws(drawn + q)
    requires e.node > i ==> e.weight == draws(drawn + |es|)
    ensures forall q | 0 <= q < |es + [e]| && (es + [e])[q].node > i :: (es + [e])[q].weight == draws(drawn + q)
  {
  }

  /** One empty adjacency list per cell, before the construction loop. */
  method EmptyGraph(height: int, width: int) returns (g: array<seq<Edge>>)
    requires ValidDims(height, width)
    ensures fresh(g) && Built(height, width, g[..], 0)
  {
    g := new seq<Edge>[height * width](_ => []);
  }

  /**
   * The construction loop over every cell, in index order: the full grid
   * graph, with the weight of every edge taken from the draw made for the
   * entry of its lower-numbered end.
   */
  method ConnectAll(height: int, width: int, draws: nat -> int) returns (g: array<seq<Edge>>)
    requires ValidDims(height, width)
    requires forall k: nat :: 1 <= draws(k) <= 1000
    ensures fresh(g) && FullGraph(height, width, g[..])
    ensures DrawnFrom(height, width, g[..], draws, g.Length)
  {
    g := EmptyGraph(height, width);
    var drawn: nat := 0;
    for i := 0 to g.Length
      invariant Built(height, width, g[..], i)
      invariant drawn == DrawsBefore(height, width, i)
      invariant DrawnFrom(height, width, g[..], draws, i)
    {
      drawn := ConnectRound(height, width, g, i, draws, drawn);
    }
    BuiltIsFull(height, width, g[..]);
  }

  /** One round of the construction loop: cell i gets its list and the draws that follow the earlier cells' draws. */
  method ConnectRound(height: int, width: int, g: array<seq<Edge>>, i: int, draws: nat -> int, drawn: nat)
    returns (drawn': nat)
    requires Built(height, width, g[..], i) && i < g.Length
    requires forall k: nat :: 1 <= draws(k) <= 1000
    requires drawn == DrawsBefore(height, width, i)
    requires DrawnFrom(height, width, g[..], draws, i)
    modifies g
    ensures Built(height, width, g[..], i + 1)
    ensures drawn' == DrawsBefore(height, width, i + 1)
    ensures DrawnFrom(height, width, g[..], draws, i + 1)
  {
    ghost var before := g[..];
    drawn' := ConnectCell(height, width, g, i, draws, drawn);
    ghost var after := g[..];
    assert forall c | 0 <= c < |after| && c != i :: after[c] == before[c];
    DrawnStep(height, width, before, after, draws, i);
    DrawsBeforeStep(height, width, i);
  }

  lemma DrawsBeforeStep(height: int, width: int, i: int)
    requires ValidDims(height, width) && i >= 0
    ensures DrawsBefore(height, width, i + 1) == DrawsBefore(height, width, i) + |AdjacentNodes(height, width, i)|
  {
  }

  /** Completing cell i with its own draws extends the draw layout to cells [0, i]. */
  lemma DrawnStep(height: int, width: int, g: seq<seq<Edge>>, g': seq<seq<Edge>>, draws: nat -> int, i: int)
    requires ValidDims(height, width) && 0 <= i < |g| == |g'|
    requires DrawnFrom(height, width, g, draws, i)
    requires forall c | 0 <= c < |g| && c != i :: g'[c] == g[c]
    requires forall p | 0 <= p < |g'[i]| && g'[i][p].node > i ::
      g'[i][p].weight == draws(DrawsBefore(height, width, i) + p)
    ensures DrawnFrom(height, width, g', draws, i + 1)
  {
    forall c, p | 0 <= c < i + 1 && c < |g'| && 0 <= p < |g'[c]| && g'[c][p].node > c
      ensures g'[c][p].weight == draws(DrawsBefore(height, width, c) + p)
    {
      if c < i {
        assert g'[c] == g[c];
      }
    }
  }

  /**
   * The weights are fixed by the draws: two full grid graphs built from the
   * same draws are the same graph.
   */
  lemma SameDrawsSameGraph(height: int, width: int, g1: seq<seq<Edge>>, g2: seq<seq<Edge>>, draws: nat -> int)
    requires FullGraph(height, width, g1) && FullGraph(height, width, g2)
    requires DrawnFrom(height, width, g1, draws, |g1|) && DrawnFrom(height, width, g2, draws, |g2|)
    ensures g1 == g2
  {
    forall c | 0 <= c < |g1| ensures g1[c] == g2[c] {
      assert Nodes(g1[c]) == AdjacentNodes(height, width, c) == Nodes(g2[c]);
      forall p | 0 <= p < |g1[c]| ensures g1[c][p] == g2[c][p] {
        EntryAgrees(height, width, g1, g2, draws, c, p);
      }
    }
  }

  /** Entry p of cell c is the same in two full grid graphs built from the same draws. */
  lemma EntryAgrees(height: int, width: int, g1: seq<seq<Edge>>, g2: seq<seq<Edge>>, draws: nat -> int,
                    c: int, p: int)
    requires FullGraph(height, width, g1) && FullGraph(height, width, g2)
    requires DrawnFrom(height, width, g1, draws, |g1|) && DrawnFrom(height, width, g2, draws, |g2|)
    requires 0 <= c < |g1| && 0 <= p < |g1[c]|
    ensures p < |g2[c]| && g1[c][p] == g2[c][p]
  {
    assert Nodes(g1[c]) == AdjacentNodes(height, width, c) == Nodes(g2[c]);
    assert g1[c][p].node == Nodes(g1[c])[p] == Nodes(g2[c])[p] == g2[c][p].node;
    var b := g1[c][p].node;
    assert b != c by {
      AdjacentNodesCorrect(height, width, c);
      assert b in AdjacentNodes(height, width, c);
    }
    if b < c {
      assert 0 <= b;
      assert Nodes(g1[b]) == AdjacentNodes(height, width, b) == Nodes(g2[b]);
      AdjacentNodesCorrect(height, width, b);
      MirroredWeight(height, width, g1, g2, draws, c, p, b);
    } else {
      DrawnAt(height, width, g1, draws, c, p);
      DrawnAt(height, width, g2, draws, c, p);
    }
  }

  /** The draw layout read at one entry towards a higher-numbered neighbour. */
  lemma DrawnAt(height: int, width: int, g: seq<seq<Edge>>, draws: nat -> int, c: int, p: int)
    requires ValidDims(height, width) && DrawnFrom(height, width, g, draws, |g|)
    requires 0 <= c < |g| && 0 <= p < |g[c]| && g[c][p].node > c
    ensures g[c][p].weight == draws(DrawsBefore(height, width, c) + p)
  {
  }

  /** An entry towards a lower cell b carries the weight drawn for the entry of b that mirrors it. */
  lemma MirroredWeight(height: int, width: int, g1: seq<seq<Edge>>, g2: seq<seq<Edge>>, draws: nat -> int,
                       c: int, p: int, b: int)
    requires ValidDims(height, width) && 0 <= b < c < |g1| && |g1| == |g2|
    requires 0 <= p < |g1[c]| && p < |g2[c]| && g1[c][p].node == b && g2[c][p].node == b
    requires Edge(g1[c][p].weight, c) in g1[b] && Edge(g2[c][p].weight, c) in g2[b]
    requires Nodes(g1[b]) == Nodes(g2[b]) && Distinct(Nodes(g1[b]))
    requires DrawnFrom(height, width, g1, draws, |g1|) && DrawnFrom(height, width, g2, draws, |g2|)
    ensures g1[c][p].weight == g2[c][p].weight
  {
    var q1 :| 0 <= q1 < |g1[b]| && g1[b][q1] == Edge(g1[c][p].weight, c);
    var q2 :| 0 <= q2 < |g2[b]| && g2[b][q2] == Edge(g2[c][p].weight, c);
    assert Nodes(g1[b])[q1] == c == Nodes(g1[b])[q2];
  }

  /**
   * The entrance: either the cell in column `startTop` of the top row or the
   * cell at the start of row `startLeftRow`, as `pickTop` chooses.
   */
  function Entrance(height: int, width: int, startTop: int, startLeftRow: int, pickTop: bool): (e: int)
    requires ValidDims(height, width) && 0 <= startTop < width && 0 <= startLeftRow < height
    ensures InGrid(height, width, e) && (Row(width, e) == 0 || Col(width, e) == 0)
    ensures pickTop ==> Row(width, e) == 0 && Col(width, e) == startTop
    ensures !pickTop ==> Row(width, e) == startLeftRow && Col(width, e) == 0
  {
    if pickTop then
      DivModUnique(width, startTop, 0, startTop);
      MulMonotone(width, 1, height);
      startTop
    else
      CellAt(height, width, startLeftRow, 0)
  }

  /**
   * The destination: either the cell in column `endBottom` of the bottom row
   * or the cell at the end of row `endRightRow`, as `pickBottom` chooses.
   */
  function Destination(height: int, width: int, endBottom: int, endRightRow: int, pickBottom: bool): (d: int)
    requires ValidDims(height, width) && 0 <= endBottom < width && 0 <= endRightRow < height
    ensures InGrid(height, width, d) && (Row(width, d) == height - 1 || Col(width, d) == width - 1)
    ensures pickBottom ==> Row(width, d) == height - 1 && Col(width, d) == endBottom
    ensures !pickBottom ==> Row(width, d) == endRightRow && Col(width, d) == width - 1
  {
    if pickBottom then CellAt(height, width, height - 1, endBottom)
    else CellAt(height, width, endRightRow, width - 1)
  }

  /** The cell in row y and column x, written as the construction writes it. */
  function CellAt(height: int, width: int, y: int, x: int): (c: int)
    requires ValidDims(height, width) && 0 <= y < height && 0 <= x < width
    ensures InGrid(height, width, c) && Row(width, c) == y && Col(width, c) == x
  {
    DivModUnique(width, y * width + x, y, x);
    MulMonotone(width, y + 1, height);
    MulDistributes(width, y, 1);
    y * width + x
  }
}
