/**
 * The maze object: its dimensions, one adjacency list per cell, the
 * entrance and the destination. Construction builds the fully connected
 * grid, picks the two end cells and prunes the grid down to a spanning tree
 * found by Prim's algorithm; the maze then reports the walls of each cell
 * and solves itself by breadth-first search.
 */
module MazeModel {
  import opened Grid
  import opened Graph
  import opened Build
  import opened Prim
  import opened Pruning
  import opened Perfect
  import opened Walls
  import opened Solver

  /** The endpoints lie where the construction puts them: entrance top or left, destination bottom or right. */
  predicate Endpoints(height: int, width: int, entrance: int, destination: int)
    requires ValidDims(height, width)
  {
    InGrid(height, width, entrance) && (Row(width, entrance) == 0 || Col(width, entrance) == 0) &&
    InGrid(height, width, destination) &&
    (Row(width, destination) == height - 1 || Col(width, destination) == width - 1)
  }

  class Maze {
    const height: int
    const width: int
    /** One adjacency list per cell; pruning edits the lists in place. */
    const maze: array<seq<Edge>>
    const entrance: int
    const destination: int
    /** The fully connected grid the maze was cut from. */
    ghost var full: seq<seq<Edge>>
    /** The accepted edges, in the order Prim's algorithm took them. */
    ghost var tree: seq<Frontier>

    /** A generated maze: the full grid pruned to a spanning tree of it. */
    ghost predicate Valid()
      reads this, maze
    {
      ValidDims(height, width) && maze.Length == height * width &&
      FullGraph(height, width, full) && SpanningTree(full, tree) && maze[..] == Pruned(full, tree) &&
      Endpoints(height, width, entrance, destination)
    }

    /**
     * Builds and generates a maze. `draws(k)` is the k-th weight drawn, and
     * the end cells come from the position draws and the two choices.
     */
    constructor (height: int, width: int, draws: nat -> int,
                 startTop: int, startLeftRow: int, endBottom: int, endRightRow: int,
                 pickTop: bool, pickBottom: bool)
      requires ValidDims(height, width)
      requires forall k: nat :: 1 <= draws(k) <= 1000
      requires 0 <= startTop < width && 0 <= startLeftRow < height
      requires 0 <= endBottom < width && 0 <= endRightRow < height
      ensures Valid() && fresh(maze)
      ensures this.height == height && this.width == width
      ensures entrance == Entrance(height, width, startTop, startLeftRow, pickTop)
      ensures destination == Destination(height, width, endBottom, endRightRow, pickBottom)
      ensures DrawnFrom(height, width, full, draws, |full|)
    {
      this.height := height;
      this.width := width;
      var g := ConnectAll(height, width, draws);
      maze := g;
      entrance := Entrance(height, width, startTop, startLeftRow, pickTop);
      destination := Destination(height, width, endBottom, endRightRow, pickBottom);
      full := g[..];
      new;
      GenerateMaze();
    }

    /** Prim's algorithm over the full grid, then pruning of every entry that is not an accepted edge. */
    method GenerateMaze()
      requires ValidDims(height, width) && maze.Length == height * width
      requires FullGraph(height, width, full) && maze[..] == full
      requires Endpoints(height, width, entrance, destination)
      modifies this, maze
      ensures Valid() && full == old(full)
      ensures EntriesUpTo(maze[..], maze.Length) == 2 * (maze.Length - 1)
    {
      var mst := SpanningTreeOf(height, width, maze[..]);
      tree := mst;
      for i := 0 to maze.Length
        invariant |full| == maze.Length
        invariant forall c | 0 <= c < i :: maze[c] == Kept(full[c], c, mst)
        invariant forall c | i <= c < maze.Length :: maze[c] == full[c]
        modifies maze
      {
        PruneCell(i, mst);
      }
      assert maze[..] == Pruned(full, tree);
      PrunedEntryCount(height, width, full, tree);
    }

    /** Pruning one cell: collect the entries no accepted edge matches, then remove them one by one. */
    method PruneCell(i: int, mst: seq<Frontier>)
      requires ValidDims(height, width) && maze.Length == height * width && FullGraph(height, width, full)
      requires 0 <= i < maze.Length && maze[i] == full[i]
      modifies maze
      ensures maze[i] == Kept(full[i], i, mst)
      ensures forall c | 0 <= c < maze.Length && c != i :: maze[c] == old(maze[c])
    {
      var node := maze[i];
      var toRemove := RejectedEdges(node, i, mst);
      AdjacentNodesCorrect(height, width, i);
      EntriesDistinct(node);
      DroppedDistinct(node, i, mst);
      DroppedMembers(node, i, mst);
      assert toRemove[..0] == [];
      WithoutNone(node, []);
      for t := 0 to |toRemove|
        invariant maze[i] == Without(node, toRemove[..t])
        invariant forall c | 0 <= c < maze.Length && c != i :: maze[c] == old(maze[c])
      {
        var e := toRemove[t];
        RemovalStep(node, toRemove, t);
        maze[i] := RemoveFirst(maze[i], e);
      }
      assert toRemove[..|toRemove|] == toRemove;
      WithoutIsKept(node, i, mst, toRemove);
    }

    /** The walls of one cell, in the order north, east, south, west. */
    method WallDirections(node: int) returns (walls: seq<char>)
      requires Valid() && 0 <= node < maze.Length
      ensures walls == ExpectedWalls(width, maze[node], node, entrance, destination)
    {
      CellEntries(height, width, full, tree, node);
      walls := Walls.WallDirections(height, width, maze[node], node, entrance, destination);
    }

    /** The breadth-first search from the entrance: it always finds a shortest path to the destination. */
    method SolveMaze() returns (r: Option<seq<int>>, reports: seq<int>)
      requires Valid()
      ensures exists n | 0 <= n :: reports == DueUpTo(height * width, n)
      ensures r.Some? && PathBetween(maze[..], r.value, entrance, destination)
      ensures forall p | PathBetween(maze[..], p, entrance, destination) :: |r.value| <= |p|
    {
      PrunedSymmetric(full, tree);
      r, reports := Bfs(maze[..], entrance, destination);
      var p := PrunedConnected(full, tree, entrance, destination);
      assert PathBetween(maze[..], p, entrance, destination);
    }
  }

  /**
   * The dimension check: a grid narrower or shorter than two cells is
   * refused (the program stops there) and nothing is built.
   */
  method NewMaze(height: int, width: int, draws: nat -> int,
                 startTop: int, startLeftRow: int, endBottom: int, endRightRow: int,
                 pickTop: bool, pickBottom: bool)
    returns (m: Option<Maze>)
    requires forall k: nat :: 1 <= draws(k) <= 1000
    requires ValidDims(height, width) ==> 0 <= startTop < width && 0 <= startLeftRow < height
    requires ValidDims(height, width) ==> 0 <= endBottom < width && 0 <= endRightRow < height
    ensures m.None? <==> height < 2 || width < 2
    ensures m.Some? ==> fresh(m.value) && m.value.Valid()
    ensures m.Some? ==> m.value.height == height && m.value.width == width
    ensures m.Some? ==> m.value.entrance == Entrance(height, width, startTop, startLeftRow, pickTop)
    ensures m.Some? ==> m.value.destination == Destination(height, width, endBottom, endRightRow, pickBottom)
    ensures m.Some? ==> DrawnFrom(height, width, m.value.full, draws, |m.value.full|)
  {
    if height < 2 || width < 2 {
      return None;
    }
    var maze := new Maze(height, width, draws, startTop, startLeftRow, endBottom, endRightRow, pickTop, pickBottom);
    return Some(maze);
  }

  /**
   * A maze is reproducible: two mazes of the same dimensions whose grids
   * were built from the same weight draws have the same spanning tree and
   * the same passages.
   */
  lemma SameDrawsSameMaze(m1: Maze, m2: Maze, draws: nat -> int)
    requires m1.Valid() && m2.Valid() && m1.height == m2.height && m1.width == m2.width
    requires DrawnFrom(m1.height, m1.width, m1.full, draws, |m1.full|)
    requires DrawnFrom(m2.height, m2.width, m2.full, draws, |m2.full|)
    ensures m1.tree == m2.tree && m1.maze[..] == m2.maze[..]
  {
    SameDrawsSameGraph(m1.height, m1.width, m1.full, m2.full, draws);
    PrimTreeUnique(m1.full, m1.tree, m2.tree);
  }

  /**
   * The walls of a cell of a generated maze: a side is open exactly when
   * the spanning tree joins the cell to its neighbour on that side, or when
   * it is the outside opening of the entrance or the destination.
   */
  lemma WallsFollowTree(height: int, width: int, full: seq<seq<Edge>>, tree: seq<Frontier>,
                        entrance: int, destination: int, node: int)
    requires FullGraph(height, width, full) && 0 <= node < |full|
    ensures ExpectedWalls(width, Pruned(full, tree)[node], node, entrance, destination) ==
      Remaining((Row(width, node) != 0 && TreeEdge(tree, node, node - width)) ||
                  (node == entrance && Col(width, node) != 0),
                (Col(width, node) != width - 1 && TreeEdge(tree, node, node + 1)) ||
                  (node == destination && Col(width, node) == width - 1),
                (Row(width, node) != height - 1 && TreeEdge(tree, node, node + width)) ||
                  (node == destination && Col(width, node) != width - 1),
                (Col(width, node) != 0 && TreeEdge(tree, node, node - 1)) ||
                  (node == entrance && Col(width, node) == 0))
  {
    CellFollowsTree(height, width, full, tree, node);
    WallsOfTree(height, width, Pruned(full, tree)[node], node, tree, entrance, destination);
  }

  /** The pruned list of a cell leads exactly to the neighbours the tree joins it to. */
  lemma CellFollowsTree(height: int, width: int, full: seq<seq<Edge>>, tree: seq<Frontier>, node: int)
    requires FullGraph(height, width, full) && 0 <= node < |full|
    ensures FollowsTree(height, width, Pruned(full, tree)[node], node, tree)
  {
    var es := Pruned(full, tree)[node];
    forall j ensures LeadsTo(es, j) <==> Adjacent(height, width, node, j) && TreeEdge(tree, node, j) {
      SideLeadsTo(height, width, full, tree, node, j);
    }
    FollowsFromAdjacency(height, width, es, node, tree);
  }

  /** An entry of a pruned cell leads to j exactly when j is a grid neighbour joined by the tree. */
  lemma SideLeadsTo(height: int, width: int, full: seq<seq<Edge>>, tree: seq<Frontier>, node: int, j: int)
    requires FullGraph(height, width, full) && 0 <= node < |full|
    ensures LeadsTo(Pruned(full, tree)[node], j) <==> Adjacent(height, width, node, j) && TreeEdge(tree, node, j)
  {
    PrunedLeadsTo(height, width, full, tree, node, j);
    assert LeadsTo(Pruned(full, tree)[node], j) <==> Linked(Pruned(full, tree), node, j);
  }

  /** Two cells side by side in a row agree on the wall between them. */
  lemma EastWestShared(height: int, width: int, full: seq<seq<Edge>>, tree: seq<Frontier>,
                       entrance: int, destination: int, node: int)
    requires FullGraph(height, width, full) && 0 <= node < |full| && Col(width, node) != width - 1
    ensures node + 1 < |full|
    ensures 'e' in ExpectedWalls(width, Pruned(full, tree)[node], node, entrance, destination) <==>
            'w' in ExpectedWalls(width, Pruned(full, tree)[node + 1], node + 1, entrance, destination)
  {
    RightCell(height, width, node);
    var next := node + 1;
    CellFollowsTree(height, width, full, tree, node);
    CellFollowsTree(height, width, full, tree, next);
    EastWestAgree(height, width, Pruned(full, tree)[node], Pruned(full, tree)[next], node, next, tree,
                  entrance, destination);
  }

  /** Two cells one above the other agree on the wall between them. */
  lemma NorthSouthShared(height: int, width: int, full: seq<seq<Edge>>, tree: seq<Frontier>,
                         entrance: int, destination: int, node: int)
    requires FullGraph(height, width, full) && Endpoints(height, width, entrance, destination)
    requires 0 <= node < |full| && Row(width, node) != height - 1
    ensures node + width < |full|
    ensures 's' in ExpectedWalls(width, Pruned(full, tree)[node], node, entrance, destination) <==>
            'n' in ExpectedWalls(width, Pruned(full, tree)[node + width], node + width, entrance, destination)
  {
    CellBelow(height, width, node);
    var lower := node + width;
    CellFollowsTree(height, width, full, tree, node);
    CellFollowsTree(height, width, full, tree, lower);
    SouthNorthAgree(height, width, Pruned(full, tree)[node], Pruned(full, tree)[lower], node, lower, tree,
                    entrance, destination);
  }

  /** One removal of the pruning of a cell filters one more rejected entry out. */
  lemma RemovalStep(node: seq<Edge>, toRemove: seq<Edge>, t: int)
    requires Distinct(node) && Distinct(toRemove) && 0 <= t < |toRemove|
    requires forall e | e in toRemove :: e in node
    ensures toRemove[t] in Without(node, toRemove[..t])
    ensures RemoveFirst(Without(node, toRemove[..t]), toRemove[t]) == Without(node, toRemove[..t + 1])
  {
    var e, done := toRemove[t], toRemove[..t];
    var rest := Without(node, done);
    assert e !in done by {
      forall s | 0 <= s < t ensures done[s] != e {
        assert done[s] == toRemove[s];
      }
    }
    assert e in node by {
      assert e in toRemove;
    }
    assert e in rest by {
      WithoutMembers(node, done);
    }
    WithoutDistinct(node, done);
    RemoveFirstIsWithout(rest, e);
    WithoutTwice(node, done, e);
    assert done + [e] == toRemove[..t + 1];
  }

  /** The entries of a cell of a generated maze lead to distinct grid neighbours. */
  lemma CellEntries(height: int, width: int, full: seq<seq<Edge>>, tree: seq<Frontier>, node: int)
    requires FullGraph(height, width, full) && 0 <= node < |full|
    ensures NeighbourEntries(height, width, Pruned(full, tree)[node], node)
  {
    var es := Pruned(full, tree)[node];
    AdjacentNodesCorrect(height, width, node);
    KeptMembers(full[node], node, tree);
    KeptSubList(full[node], node, tree);
    forall k | 0 <= k < |es| ensures Adjacent(height, width, node, es[k].node) {
      assert es[k] in es;
      var t :| 0 <= t < |full[node]| && full[node][t] == es[k];
      assert Nodes(full[node])[t] == es[k].node;
    }
    EntriesDistinct(full[node]);
    SubListNodesDistinct(es, full[node]);
  }
}
