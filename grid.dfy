/**
 * Grid topology of a maze: cells are numbered row-major, index = y * width + x,
 * for a grid of `height` rows and `width` columns.
 */
module Grid {

  /** Dimensions the maze accepts: both at least 2. */
  predicate ValidDims(height: int, width: int) {
    height >= 2 && width >= 2
  }

  /** Number of cells of the grid. */
  function CellCount(height: int, width: int): int {
    height * width
  }

  predicate InGrid(height: int, width: int, c: int) {
    0 <= c < height * width
  }

  function Col(width: int, c: int): int
    requires width > 0
  {
    c % width
  }

  function Row(width: int, c: int): int
    requires width > 0
  {
    c / width
  }

  function Dist(a: int, b: int): nat {
    if a <= b then b - a else a - b
  }

  /**
   * Reference definition of the grid graph: two cells are adjacent when both
   * lie on the grid and their coordinates are at Manhattan distance 1.
   */
  predicate Adjacent(height: int, width: int, a: int, b: int)
    requires width > 0
  {
    InGrid(height, width, a) && InGrid(height, width, b) &&
    Dist(Col(width, a), Col(width, b)) + Dist(Row(width, a), Row(width, b)) == 1
  }

  lemma MulMonotone(a: int, b: int, c: int)
    requires a >= 0 && b <= c
    ensures a * b <= a * c
  {
    assert a * c - a * b == a * (c - b);
  }

  lemma MulDistributes(a: int, b: int, c: int)
    ensures a * (b + c) == a * b + a * c
  {
  }

  lemma DivModFacts(width: int, c: int)
    requires width > 0
    ensures c == width * (c / width) + c % width && 0 <= c % width < width
  {
  }

  /** Euclidean division is determined by quotient and remainder. */
  lemma DivModUnique(width: int, c: int, q: int, r: int)
    requires width > 0 && 0 <= r < width && c == width * q + r
    ensures c / width == q && c % width == r
  {
    var q' := c / width;
    DivModFacts(width, c);
    if q' < q {
      MulDistributes(width, q', q - q');
      MulMonotone(width, 1, q - q');
      assert false;
    } else if q < q' {
      MulDistributes(width, q, q' - q);
      MulMonotone(width, 1, q' - q);
      assert false;
    }
  }

  /** A cell on the grid has a row in [0, height) and a column in [0, width). */
  lemma Coordinates(height: int, width: int, c: int)
    requires ValidDims(height, width) && InGrid(height, width, c)
    ensures 0 <= Col(width, c) < width && 0 <= Row(width, c) < height
    ensures c == width * Row(width, c) + Col(width, c)
  {
    var y := c / width;
    DivModFacts(width, c);
    if y >= height {
      MulMonotone(width, height, y);
      assert false;
    }
    if y < 0 {
      MulMonotone(width, y, -1);
      assert false;
    }
  }

  lemma WestNeighbour(height: int, width: int, a: int)
    requires ValidDims(height, width) && InGrid(height, width, a) && a % width != 0
    ensures Adjacent(height, width, a, a - 1)
  {
    Coordinates(height, width, a);
    DivModUnique(width, a - 1, a / width, a % width - 1);
  }

  lemma EastNeighbour(height: int, width: int, a: int)
    requires ValidDims(height, width) && InGrid(height, width, a) && a % width != width - 1
    ensures Adjacent(height, width, a, a + 1)
  {
    Coordinates(height, width, a);
    var x, y := a % width, a / width;
    DivModUnique(width, a + 1, y, x + 1);
    MulDistributes(width, y, 1);
    MulMonotone(width, y + 1, height);
  }

  lemma NorthNeighbour(height: int, width: int, a: int)
    requires ValidDims(height, width) && InGrid(height, width, a) && a >= width
    ensures Adjacent(height, width, a, a - width)
  {
    Coordinates(height, width, a);
    var x, y := a % width, a / width;
    MulDistributes(width, y - 1, 1);
    DivModUnique(width, a - width, y - 1, x);
  }

  lemma SouthNeighbour(height: int, width: int, a: int)
    requires ValidDims(height, width) && InGrid(height, width, a) && a + width < height * width
    ensures Adjacent(height, width, a, a + width)
  {
    Coordinates(height, width, a);
    var x, y := a % width, a / width;
    MulDistributes(width, y, 1);
    DivModUnique(width, a + width, y + 1, x);
  }

  lemma AdjacentIsNeighbour(height: int, width: int, a: int, b: int)
    requires ValidDims(height, width) && Adjacent(height, width, a, b)
    ensures (b == a - 1 && a % width != 0) || (b == a + 1 && a % width != width - 1) ||
            (b == a - width && a >= width) || (b == a + width && a + width < height * width)
  {
    Coordinates(height, width, a);
    Coordinates(height, width, b);
    var x, y := a % width, a / width;
    var x', y' := b % width, b / width;
    if y' == y - 1 {
      MulDistributes(width, y - 1, 1);
    } else if y' == y + 1 {
      MulDistributes(width, y, 1);
    }
  }

  /** Adjacency spelled out on indices: the cell to the west, east, north or south. */
  lemma {:induction false} AdjacentByIndex(height: int, width: int, a: int, b: int)
    requires ValidDims(height, width) && InGrid(height, width, a)
    ensures Adjacent(height, width, a, b) <==>
      (b == a - 1 && a % width != 0) || (b == a + 1 && a % width != width - 1) ||
      (b == a - width && a >= width) || (b == a + width && a + width < height * width)
  {
    if Adjacent(height, width, a, b) {
      AdjacentIsNeighbour(height, width, a, b);
    }
    if b == a - 1 && a % width != 0 {
      WestNeighbour(height, width, a);
    }
    if b == a + 1 && a % width != width - 1 {
      EastNeighbour(height, width, a);
    }
    if b == a - width && a >= width {
      NorthNeighbour(height, width, a);
    }
    if b == a + width && a + width < height * width {
      SouthNeighbour(height, width, a);
    }
  }

  lemma RowBounds(height: int, width: int, a: int)
    requires ValidDims(height, width) && InGrid(height, width, a)
    ensures a >= width <==> Row(width, a) >= 1
    ensures a + width < height * width <==> Row(width, a) < height - 1
  {
    Coordinates(height, width, a);
    var x, y := a % width, a / width;
    MulDistributes(width, y, 1);
    if y < height - 1 {
      MulMonotone(width, y + 2, height);
      MulDistributes(width, y + 1, 1);
    } else {
      MulMonotone(width, height, y + 1);
    }
    if y >= 1 {
      MulMonotone(width, 1, y);
    }
  }

  /** No element occurs twice. */
  predicate Distinct<T(==)>(s: seq<T>) {
    forall i, j | 0 <= i < j < |s| :: s[i] != s[j]
  }

  /**
   * The orthogonal neighbours of `node`, listed by the same nine boundary
   * cases, in the same order, as the maze's adjacency enumeration.
   */
  function AdjacentNodes(height: int, width: int, node: int): seq<int>
    requires ValidDims(height, width)
  {
    var x := node % width;
    var y := node / width;
    if x == 0 && y == 0 then
      [width * y + (x + 1), width * (y + 1) + x]
    else if x == width - 1 && y == 0 then
      [width * y + (x - 1), width * (y + 1) + x]
    else if x == 0 && y == height - 1 then
      [width * (y - 1) + x, width * y + (x + 1)]
    else if x == width - 1 && y == height - 1 then
      [width * (y - 1) + x, width * y + (x - 1)]
    else if y == 0 then
      [width * y + (x - 1), width * y + (x + 1), width * (y + 1) + x]
    else if y == height - 1 then
      [width * y + (x - 1), width * y + (x + 1), width * (y - 1) + x]
    else if x == 0 then
      [width * y + (x + 1), width * (y - 1) + x, width * (y + 1) + x]
    else if x == width - 1 then
      [width * y + (x - 1), width * (y - 1) + x, width * (y + 1) + x]
    else
      [width * y + (x - 1), width * y + (x + 1), width * (y - 1) + x, width * (y + 1) + x]
  }

  /** Number of sides of `node` that lie on the outer boundary (0, 1 or 2). */
  function BoundarySides(height: int, width: int, node: int): nat
    requires ValidDims(height, width)
  {
    (if Col(width, node) == 0 then 1 else 0) + (if Col(width, node) == width - 1 then 1 else 0) +
    (if Row(width, node) == 0 then 1 else 0) + (if Row(width, node) == height - 1 then 1 else 0)
  }

  /**
   * The enumeration lists exactly the grid neighbours, each once: two at a
   * corner, three elsewhere on the border, four in the interior.
   */
  lemma {:induction false} AdjacentNodesCorrect(height: int, width: int, node: int)
    requires ValidDims(height, width) && InGrid(height, width, node)
    ensures forall j :: j in AdjacentNodes(height, width, node) <==> Adjacent(height, width, node, j)
    ensures Distinct(AdjacentNodes(height, width, node))
    ensures BoundarySides(height, width, node) <= 2
    ensures |AdjacentNodes(height, width, node)| == 4 - BoundarySides(height, width, node)
  {
    Coordinates(height, width, node);
    RowBounds(height, width, node);
    var x, y := node % width, node / width;
    MulDistributes(width, y, 1);
    MulDistributes(width, y - 1, 1);
    var adj := AdjacentNodes(height, width, node);
    forall j
      ensures j in adj <==> Adjacent(height, width, node, j)
    {
      AdjacentByIndex(height, width, node, j);
    }
  }

  /** The enumeration is symmetric: j is listed for i exactly when i is listed for j. */
  lemma {:induction false} AdjacentNodesSymmetric(height: int, width: int, i: int, j: int)
    requires ValidDims(height, width) && InGrid(height, width, i) && InGrid(height, width, j)
    ensures j in AdjacentNodes(height, width, i) <==> i in AdjacentNodes(height, width, j)
  {
    AdjacentNodesCorrect(height, width, i);
    AdjacentNodesCorrect(height, width, j);
  }

  /**
   * The grid is connected: when cell 0 is in `reached` and some cell `u` is
   * not, a pair of adjacent cells crosses from `reached` to the rest.
   */
  lemma {:induction false} CutIsCrossed(height: int, width: int, reached: seq<int>, u: int)
    requires ValidDims(height, width) && InGrid(height, width, u)
    requires 0 in reached && u !in reached
    ensures exists a, b :: a in reached && b !in reached && Adjacent(height, width, a, b)
    decreases u
  {
    if u >= width {
      NorthNeighbour(height, width, u);
      AdjacentSymmetric(height, width, u, u - width);
      if u - width !in reached {
        CutIsCrossed(height, width, reached, u - width);
      }
    } else {
      assert u != 0;
      DivModUnique(width, u, 0, u);
      WestNeighbour(height, width, u);
      AdjacentSymmetric(height, width, u, u - 1);
      if u - 1 !in reached {
        CutIsCrossed(height, width, reached, u - 1);
      }
    }
  }

  /** The neighbour on each side exists exactly when the cell is not on that border. */
  lemma WestSide(height: int, width: int, a: int)
    requires ValidDims(height, width) && InGrid(height, width, a)
    ensures Adjacent(height, width, a, a - 1) <==> Col(width, a) != 0
  {
    if Col(width, a) != 0 {
      WestNeighbour(height, width, a);
    } else if Adjacent(height, width, a, a - 1) {
      AdjacentIsNeighbour(height, width, a, a - 1);
    }
  }

  lemma EastSide(height: int, width: int, a: int)
    requires ValidDims(height, width) && InGrid(height, width, a)
    ensures Adjacent(height, width, a, a + 1) <==> Col(width, a) != width - 1
  {
    if Col(width, a) != width - 1 {
      EastNeighbour(height, width, a);
    } else if Adjacent(height, width, a, a + 1) {
      AdjacentIsNeighbour(height, width, a, a + 1);
    }
  }

  lemma NorthSide(height: int, width: int, a: int)
    requires ValidDims(height, width) && InGrid(height, width, a)
    ensures Adjacent(height, width, a, a - width) <==> Row(width, a) != 0
  {
    RowBounds(height, width, a);
    if Row(width, a) != 0 {
      NorthNeighbour(height, width, a);
    } else if Adjacent(height, width, a, a - width) {
      AdjacentIsNeighbour(height, width, a, a - width);
    }
  }

  lemma SouthSide(height: int, width: int, a: int)
    requires ValidDims(height, width) && InGrid(height, width, a)
    ensures Adjacent(height, width, a, a + width) <==> Row(width, a) != height - 1
  {
    RowBounds(height, width, a);
    if Row(width, a) != height - 1 {
      SouthNeighbour(height, width, a);
    } else if Adjacent(height, width, a, a + width) {
      AdjacentIsNeighbour(height, width, a, a + width);
    }
  }

  /** The cell to the right of a cell off the right border: same row, next column. */
  lemma RightCell(height: int, width: int, a: int)
    requires ValidDims(height, width) && InGrid(height, width, a) && Col(width, a) != width - 1
    ensures InGrid(height, width, a + 1) && Row(width, a + 1) == Row(width, a) && Col(width, a + 1) == Col(width, a) + 1
  {
    EastSide(height, width, a);
    Coordinates(height, width, a);
    DivModUnique(width, a + 1, Row(width, a), Col(width, a) + 1);
  }

  /** The cell below a cell off the bottom border: next row, same column. */
  lemma CellBelow(height: int, width: int, a: int)
    requires ValidDims(height, width) && InGrid(height, width, a) && Row(width, a) != height - 1
    ensures InGrid(height, width, a + width) && Row(width, a + width) == Row(width, a) + 1
    ensures Col(width, a + width) == Col(width, a)
  {
    SouthSide(height, width, a);
    Coordinates(height, width, a);
    MulDistributes(width, Row(width, a), 1);
    DivModUnique(width, a + width, Row(width, a) + 1, Col(width, a));
  }

  lemma AdjacentSymmetric(height: int, width: int, a: int, b: int)
    requires width > 0
    ensures Adjacent(height, width, a, b) <==> Adjacent(height, width, b, a)
  {
  }
}
