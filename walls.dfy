/**
 * The walls drawn around one cell: of north, east, south and west, the
 * sides with no passage to a neighbour, less the outside opening of the
 * entrance and of the destination.
 */
module Walls {
  import opened Grid
  import opened Graph

  /** The sides, in the order the wall list starts with. */
  const AllSides: seq<char> := ['n', 'e', 's', 'w']

  /** Some entry of `es` leads to cell j. */
  predicate LeadsTo(es: seq<Edge>, j: int) {
    exists k | 0 <= k < |es| :: es[k].node == j
  }

  /** Side c, unless it is open. */
  function Part(open: bool, c: char): seq<char> {
    if open then [] else [c]
  }

  /** The sides, in order, that are still standing given which of them are open. */
  function Remaining(n: bool, e: bool, s: bool, w: bool): seq<char> {
    Part(n, 'n') + Part(e, 'e') + Part(s, 's') + Part(w, 'w')
  }

  /**
   * The walls of `node` whose entries are `es`: each side stands unless an
   * entry leads to the neighbour on that side, or it is the outside opening
   * of the entrance (west in the left column, north elsewhere) or of the
   * destination (east in the right column, south elsewhere).
   */
  function OpenedWalls(width: int, es: seq<Edge>, node: int, atEntrance: bool, atDestination: bool): seq<char>
    requires width > 0
  {
    Remaining(LeadsTo(es, node - width) || (atEntrance && node % width != 0),
              LeadsTo(es, node + 1) || (atDestination && node % width == width - 1),
              LeadsTo(es, node + width) || (atDestination && node % width != width - 1),
              LeadsTo(es, node - 1) || (atEntrance && node % width == 0))
  }

  /** The walls `wall_directions` is meant to report for `node`. */
  function ExpectedWalls(width: int, es: seq<Edge>, node: int, entrance: int, destination: int): seq<char>
    requires width > 0
  {
    OpenedWalls(width, es, node, node == entrance, node == destination)
  }

  /** `list.remove(x)` deletes the first x, wherever it sits. */
  lemma {:induction false} RemoveFirstSplit<T>(a: seq<T>, x: T, b: seq<T>)
    requires x !in a
    ensures RemoveFirst(a + [x] + b, x) == a + b
  {
    if a == [] {
      assert a + [x] + b == [x] + b;
    } else {
      assert (a + [x] + b)[0] == a[0];
      assert (a + [x] + b)[1..] == a[1..] + [x] + b;
      RemoveFirstSplit(a[1..], x, b);
      assert a + b == [a[0]] + (a[1..] + b);
    }
  }

  lemma RemoveNorth(e: bool, s: bool, w: bool)
    ensures RemoveFirst(Remaining(false, e, s, w), 'n') == Remaining(true, e, s, w)
  {
    var rest := Part(e, 'e') + Part(s, 's') + Part(w, 'w');
    assert Remaining(false, e, s, w) == ['n'] + rest;
    assert (['n'] + rest)[1..] == rest;
  }

  lemma RemoveEast(n: bool, s: bool, w: bool)
    ensures RemoveFirst(Remaining(n, false, s, w), 'e') == Remaining(n, true, s, w)
  {
    var rest := Part(s, 's') + Part(w, 'w');
    assert Remaining(n, false, s, w) == Part(n, 'n') + ['e'] + rest;
    RemoveFirstSplit(Part(n, 'n'), 'e', rest);
  }

  lemma RemoveSouth(n: bool, e: bool, w: bool)
    ensures RemoveFirst(Remaining(n, e, false, w), 's') == Remaining(n, e, true, w)
  {
    var front := Part(n, 'n') + Part(e, 'e');
    assert Remaining(n, e, false, w) == front + ['s'] + Part(w, 'w');
    RemoveFirstSplit(front, 's', Part(w, 'w'));
  }

  lemma RemoveWest(n: bool, e: bool, s: bool)
    ensures RemoveFirst(Remaining(n, e, s, false), 'w') == Remaining(n, e, s, true)
  {
    var front := Part(n, 'n') + Part(e, 'e') + Part(s, 's');
    assert Remaining(n, e, s, false) == front + ['w'] + [];
    RemoveFirstSplit(front, 'w', []);
  }

  /** A side is in the list exactly when it is not open. */
  lemma SidesStanding(n: bool, e: bool, s: bool, w: bool)
    ensures 'n' in Remaining(n, e, s, w) <==> !n
    ensures 'e' in Remaining(n, e, s, w) <==> !e
    ensures 's' in Remaining(n, e, s, w) <==> !s
    ensures 'w' in Remaining(n, e, s, w) <==> !w
  {
    var r := Remaining(n, e, s, w);
    assert r == Part(n, 'n') + (Part(e, 'e') + (Part(s, 's') + Part(w, 'w')));
  }

  /**
   * On each side, an entry of `node` leads to the neighbour there exactly
   * when the cell is not on that border and an accepted edge joins the two.
   */
  ghost predicate FollowsTree(height: int, width: int, es: seq<Edge>, node: int, tree: seq<Frontier>) {
    ValidDims(height, width) && InGrid(height, width, node) &&
    (LeadsTo(es, node - width) <==> Row(width, node) != 0 && TreeEdge(tree, node, node - width)) &&
    (LeadsTo(es, node + 1) <==> Col(width, node) != width - 1 && TreeEdge(tree, node, node + 1)) &&
    (LeadsTo(es, node + width) <==> Row(width, node) != height - 1 && TreeEdge(tree, node, node + width)) &&
    (LeadsTo(es, node - 1) <==> Col(width, node) != 0 && TreeEdge(tree, node, node - 1))
  }

  /** Entries leading exactly to the tree neighbours follow the tree on each of the four sides. */
  lemma FollowsFromAdjacency(height: int, width: int, es: seq<Edge>, node: int, tree: seq<Frontier>)
    requires ValidDims(height, width) && InGrid(height, width, node)
    requires forall j :: LeadsTo(es, j) <==> Adjacent(height, width, node, j) && TreeEdge(tree, node, j)
    ensures FollowsTree(height, width, es, node, tree)
  {
    NorthSide(height, width, node);
    assert LeadsTo(es, node - width) <==> Adjacent(height, width, node, node - width) && TreeEdge(tree, node, node - width);
    EastSide(height, width, node);
    assert LeadsTo(es, node + 1) <==> Adjacent(height, width, node, node + 1) && TreeEdge(tree, node, node + 1);
    SouthSide(height, width, node);
    assert LeadsTo(es, node + width) <==> Adjacent(height, width, node, node + width) && TreeEdge(tree, node, node + width);
    WestSide(height, width, node);
    assert LeadsTo(es, node - 1) <==> Adjacent(height, width, node, node - 1) && TreeEdge(tree, node, node - 1);
  }

  /**
   * The walls of a cell whose entries follow the accepted edges: a side is
   * open exactly when an accepted edge joins the cell to its neighbour on
   * that side, or when it is the outside opening of the entrance or the
   * destination.
   */
  lemma WallsOfTree(height: int, width: int, es: seq<Edge>, node: int, tree: seq<Frontier>,
                    entrance: int, destination: int)
    requires FollowsTree(height, width, es, node, tree)
    ensures ExpectedWalls(width, es, node, entrance, destination) ==
      Remaining((Row(width, node) != 0 && TreeEdge(tree, node, node - width)) ||
                  (node == entrance && Col(width, node) != 0),
                (Col(width, node) != width - 1 && TreeEdge(tree, node, node + 1)) ||
                  (node == destination && Col(width, node) == width - 1),
                (Row(width, node) != height - 1 && TreeEdge(tree, node, node + width)) ||
                  (node == destination && Col(width, node) != width - 1),
                (Col(width, node) != 0 && TreeEdge(tree, node, node - 1)) ||
                  (node == entrance && Col(width, node) == 0))
  {
  }

  /** The accepted edges join i to j exactly when they join j to i. */
  lemma TreeEdgeSymmetric(tree: seq<Frontier>, i: int, j: int)
    ensures TreeEdge(tree, i, j) <==> TreeEdge(tree, j, i)
  {
    if TreeEdge(tree, i, j) {
      var k :| 0 <= k < |tree| && ((tree[k].origin == i && tree[k].target == j) || (tree[k].target == i && tree[k].origin == j));
      assert (tree[k].origin == j && tree[k].target == i) || (tree[k].target == j && tree[k].origin == i);
    }
    if TreeEdge(tree, j, i) {
      var k :| 0 <= k < |tree| && ((tree[k].origin == j && tree[k].target == i) || (tree[k].target == j && tree[k].origin == i));
      assert (tree[k].origin == i && tree[k].target == j) || (tree[k].target == i && tree[k].origin == j);
    }
  }

  /** A cell and the cell below it agree on the wall between them. */
  lemma SouthNorthAgree(height: int, width: int, above: seq<Edge>, below: seq<Edge>, node: int, lower: int,
                        tree: seq<Frontier>, entrance: int, destination: int)
    requires lower == node + width
    requires FollowsTree(height, width, above, node, tree) && FollowsTree(height, width, below, lower, tree)
    requires Row(width, node) != height - 1
    requires Row(width, lower) == Row(width, node) + 1 && Col(width, lower) == Col(width, node)
    requires node == destination ==> Row(width, node) == height - 1 || Col(width, node) == width - 1
    requires lower == entrance ==> Row(width, lower) == 0 || Col(width, lower) == 0
    ensures 's' in ExpectedWalls(width, above, node, entrance, destination) <==>
            'n' in ExpectedWalls(width, below, lower, entrance, destination)
  {
    var c := Col(width, node);
    var joined := TreeEdge(tree, node, lower);
    TreeEdgeSymmetric(tree, node, lower);
    assert !(node == destination && c != width - 1);
    assert Row(width, lower) != 0 && !(lower == entrance && c != 0);
    WallsOfTree(height, width, above, node, tree, entrance, destination);
    WallsOfTree(height, width, below, lower, tree, entrance, destination);
    var a := ExpectedWalls(width, above, node, entrance, destination);
    var b := ExpectedWalls(width, below, lower, entrance, destination);
    assert 's' in a <==> !joined by {
      var n := (Row(width, node) != 0 && TreeEdge(tree, node, node - width)) || (node == entrance && c != 0);
      var e := (c != width - 1 && TreeEdge(tree, node, node + 1)) || (node == destination && c == width - 1);
      var w := (c != 0 && TreeEdge(tree, node, node - 1)) || (node == entrance && c == 0);
      assert a == Remaining(n, e, joined, w);
      SidesStanding(n, e, joined, w);
    }
    assert 'n' in b <==> !joined by {
      var e := (Col(width, lower) != width - 1 && TreeEdge(tree, lower, lower + 1)) ||
               (lower == destination && Col(width, lower) == width - 1);
      var s := (Row(width, lower) != height - 1 && TreeEdge(tree, lower, lower + width)) ||
               (lower == destination && Col(width, lower) != width - 1);
      var w := (Col(width, lower) != 0 && TreeEdge(tree, lower, lower - 1)) ||
               (lower == entrance && Col(width, lower) == 0);
      assert b == Remaining(joined, e, s, w);
      SidesStanding(joined, e, s, w);
    }
  }

  /** A cell and the cell to its right agree on the wall between them. */
  lemma EastWestAgree(height: int, width: int, left: seq<Edge>, right: seq<Edge>, node: int, next: int,
                      tree: seq<Frontier>, entrance: int, destination: int)
    requires next == node + 1
    requires FollowsTree(height, width, left, node, tree) && FollowsTree(height, width, right, next, tree)
    requires Col(width, node) != width - 1 && Col(width, next) == Col(width, node) + 1
    ensures 'e' in ExpectedWalls(width, left, node, entrance, destination) <==>
            'w' in ExpectedWalls(width, right, next, entrance, destination)
  {
    var joined := TreeEdge(tree, node, next);
    TreeEdgeSymmetric(tree, node, next);
    WallsOfTree(height, width, left, node, tree, entrance, destination);
    WallsOfTree(height, width, right, next, tree, entrance, destination);
    var a := ExpectedWalls(width, left, node, entrance, destination);
    var b := ExpectedWalls(width, right, next, entrance, destination);
    assert 'e' in a <==> !joined by {
      var c := Col(width, node);
      var n := (Row(width, node) != 0 && TreeEdge(tree, node, node - width)) || (node == entrance && c != 0);
      var s := (Row(width, node) != height - 1 && TreeEdge(tree, node, node + width)) ||
               (node == destination && c != width - 1);
      var w := (c != 0 && TreeEdge(tree, node, node - 1)) || (node == entrance && c == 0);
      assert a == Remaining(n, joined, s, w);
      SidesStanding(n, joined, s, w);
    }
    assert 'w' in b <==> !joined by {
      var c := Col(width, next);
      var n := (Row(width, next) != 0 && TreeEdge(tree, next, next - width)) || (next == entrance && c != 0);
      var e := (c != width - 1 && TreeEdge(tree, next, next + 1)) || (next == destination && c == width - 1);
      var s := (Row(width, next) != height - 1 && TreeEdge(tree, next, next + width)) ||
               (next == destination && c != width - 1);
      assert b == Remaining(n, e, s, joined);
      SidesStanding(n, e, s, joined);
    }
  }

  /** One more entry leads to one more cell. */
  lemma LeadsToStep(es: seq<Edge>, t: int, j: int)
    requires 0 <= t < |es|
    ensures LeadsTo(es[..t + 1], j) <==> LeadsTo(es[..t], j) || es[t].node == j
  {
    if LeadsTo(es[..t + 1], j) {
      var k :| 0 <= k < t + 1 && es[..t + 1][k].node == j;
      if k < t {
        assert es[..t][k] == es[k];
      }
    }
    if LeadsTo(es[..t], j) {
      var k :| 0 <= k < t && es[..t][k].node == j;
      assert es[..t + 1][k] == es[k];
    }
    assert es[..t + 1][t] == es[t];
  }

  /** The entries of a cell lead to distinct grid neighbours of that cell. */
  ghost predicate NeighbourEntries(height: int, width: int, es: seq<Edge>, node: int) {
    ValidDims(height, width) && InGrid(height, width, node) && Distinct(Nodes(es)) &&
    forall k | 0 <= k < |es| :: Adjacent(height, width, node, es[k].node)
  }

  /** Entry t of a list of distinct neighbours leads to a cell no earlier entry leads to. */
  lemma FreshNeighbour(height: int, width: int, es: seq<Edge>, node: int, t: int)
    requires NeighbourEntries(height, width, es, node) && 0 <= t < |es|
    ensures !LeadsTo(es[..t], es[t].node)
  {
    forall k | 0 <= k < t ensures es[..t][k].node != es[t].node {
      assert es[..t][k] == es[k] && Nodes(es)[k] != Nodes(es)[t];
    }
  }

  /** The outside opening of a border cell is a side no entry leads through. */
  lemma {:induction false} ExteriorSideClosed(height: int, width: int, es: seq<Edge>, node: int)
    requires NeighbourEntries(height, width, es, node)
    ensures Col(width, node) == 0 ==> !LeadsTo(es, node - 1)
    ensures Col(width, node) == width - 1 ==> !LeadsTo(es, node + 1)
    ensures Row(width, node) == 0 ==> !LeadsTo(es, node - width)
    ensures Row(width, node) == height - 1 ==> !LeadsTo(es, node + width)
  {
    RowBounds(height, width, node);
    forall k | 0 <= k < |es| ensures
      (Col(width, node) == 0 ==> es[k].node != node - 1) &&
      (Col(width, node) == width - 1 ==> es[k].node != node + 1) &&
      (Row(width, node) == 0 ==> es[k].node != node - width) &&
      (Row(width, node) == height - 1 ==> es[k].node != node + width)
    {
      AdjacentByIndex(height, width, node, es[k].node);
    }
  }

  /**
   * The wall list of one cell: start from all four sides, remove the side of
   * each entry, then the outside opening of the entrance and the
   * destination. No removal ever looks for a side that is already gone.
   */
  method WallDirections(height: int, width: int, es: seq<Edge>, node: int, entrance: int, destination: int)
    returns (walls: seq<char>)
    requires NeighbourEntries(height, width, es, node)
    requires node == entrance ==> Row(width, node) == 0 || Col(width, node) == 0
    requires node == destination ==> Row(width, node) == height - 1 || Col(width, node) == width - 1
    ensures walls == ExpectedWalls(width, es, node, entrance, destination)
  {
    walls := AllSides;
    assert es[..0] == [];
    for t := 0 to |es|
      invariant walls == OpenedWalls(width, es[..t], node, false, false)
    {
      walls := RemoveEntrySides(height, width, es, node, t, walls);
    }
    assert es[..|es|] == es;
    walls := OpenEntrance(height, width, es, node, entrance, walls);
    walls := OpenDestination(height, width, es, node, entrance, destination, walls);
  }

  /** The four checks for entry t: the side it leads through comes off the list. */
  method RemoveEntrySides(height: int, width: int, es: seq<Edge>, node: int, t: int, walls: seq<char>)
    returns (walls': seq<char>)
    requires NeighbourEntries(height, width, es, node) && 0 <= t < |es|
    requires walls == OpenedWalls(width, es[..t], node, false, false)
    ensures walls' == OpenedWalls(width, es[..t + 1], node, false, false)
  {
    var j := es[t].node;
    FreshNeighbour(height, width, es, node, t);
    LeadsToStep(es, t, node - width);
    LeadsToStep(es, t, node + 1);
    LeadsToStep(es, t, node + width);
    LeadsToStep(es, t, node - 1);
    var n, e, s, w := LeadsTo(es[..t], node - width), LeadsTo(es[..t], node + 1),
                      LeadsTo(es[..t], node + width), LeadsTo(es[..t], node - 1);
    walls' := walls;
    if j == node - 1 {
      RemoveWest(n, e, s);
      walls' := RemoveFirst(walls', 'w');
    }
    if j == node + 1 {
      RemoveEast(n, s, w);
      walls' := RemoveFirst(walls', 'e');
    }
    if j == node - width {
      RemoveNorth(e, s, w);
      walls' := RemoveFirst(walls', 'n');
    }
    if j == node + width {
      RemoveSouth(n, e, w);
      walls' := RemoveFirst(walls', 's');
    }
  }

  /** The outside opening of the entrance: its west wall in the left column, its north wall elsewhere. */
  method OpenEntrance(height: int, width: int, es: seq<Edge>, node: int, entrance: int, walls: seq<char>)
    returns (walls': seq<char>)
    requires NeighbourEntries(height, width, es, node)
    requires node == entrance ==> Row(width, node) == 0 || Col(width, node) == 0
    requires walls == OpenedWalls(width, es, node, false, false)
    ensures walls' == OpenedWalls(width, es, node, node == entrance, false)
  {
    ExteriorSideClosed(height, width, es, node);
    walls' := walls;
    if node == entrance {
      var n, e, s, w := LeadsTo(es, node - width), LeadsTo(es, node + 1), LeadsTo(es, node + width), LeadsTo(es, node - 1);
      if node % width == 0 {
        RemoveWest(n, e, s);
        walls' := RemoveFirst(walls', 'w');
      } else {
        RemoveNorth(e, s, w);
        walls' := RemoveFirst(walls', 'n');
      }
    }
  }

  /** The outside opening of the destination: its east wall in the right column, its south wall elsewhere. */
  method OpenDestination(height: int, width: int, es: seq<Edge>, node: int, entrance: int, destination: int,
                         walls: seq<char>)
    returns (walls': seq<char>)
    requires NeighbourEntries(height, width, es, node)
    requires node == destination ==> Row(width, node) == height - 1 || Col(width, node) == width - 1
    requires walls == OpenedWalls(width, es, node, node == entrance, false)
    ensures walls' == OpenedWalls(width, es, node, node == entrance, node == destination)
  {
    ExteriorSideClosed(height, width, es, node);
    walls' := walls;
    if node == destination {
      var atEntrance := node == entrance;
      var n, e, s, w := LeadsTo(es, node - width) || (atEntrance && node % width != 0), LeadsTo(es, node + 1),
                        LeadsTo(es, node + width), LeadsTo(es, node - 1) || (atEntrance && node % width == 0);
      if node % width == width - 1 {
        RemoveEast(n, s, w);
        walls' := RemoveFirst(walls', 'e');
      } else {
        RemoveSouth(n, e, w);
        walls' := RemoveFirst(walls', 's');
      }
    }
  }
}
