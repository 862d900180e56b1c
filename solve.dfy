/**
 * Solving the maze: breadth-first search over a first-in first-out queue of
 * path prefixes starting at the entrance. A prefix is extended by every
 * neighbour not already on it; the first prefix taken off the queue that
 * ends at the destination is the answer.
 */
module Solver {
  import opened Grid
  import opened Graph
  import opened Pruning

  datatype Option<T> = None | Some(value: T)

  /** The cells of the graph not on `p`. */
  ghost function Unvisited(g: seq<seq<Edge>>, p: seq<int>): set<int> {
    set c | 0 <= c < |g| && c !in p
  }

  /**
   * The number of times the search takes `p` or one of its extensions off
   * the queue if it never stops early: `p` itself plus, for every entry
   * of its last cell leading off the path, the count of that extension.
   */
  ghost function Ext(g: seq<seq<Edge>>, p: seq<int>): nat
    decreases Unvisited(g, p), 1
  {
    if |p| >= 1 && 0 <= p[|p| - 1] < |g| then 1 + ExtList(g, p, g[p[|p| - 1]]) else 1
  }

  /** The counts of the extensions of `p` through the entries `es`. */
  ghost function ExtList(g: seq<seq<Edge>>, p: seq<int>, es: seq<Edge>): nat
    decreases Unvisited(g, p), 0, |es|
  {
    if es == [] then 0
    else ExtList(g, p, es[..|es| - 1]) + Child(g, p, es[|es| - 1].node)
  }

  /** The count of the extension of `p` by j, or 0 when the search does not extend `p` by j. */
  ghost function Child(g: seq<seq<Edge>>, p: seq<int>, j: int): nat
    decreases Unvisited(g, p), 0, 0
  {
    if 0 <= j < |g| && j !in p then
      assert j in Unvisited(g, p) && j !in Unvisited(g, p + [j]);
      assert Unvisited(g, p + [j]) <= Unvisited(g, p);
      Ext(g, p + [j])
    else 0
  }

  /** The work left for a whole queue. */
  ghost function Sum(g: seq<seq<Edge>>, q: seq<seq<int>>): nat {
    if q == [] then 0 else Ext(g, q[0]) + Sum(g, q[1..])
  }

  lemma {:induction false} SumAppend(g: seq<seq<Edge>>, q: seq<seq<int>>, x: seq<int>)
    ensures Sum(g, q + [x]) == Sum(g, q) + Ext(g, x)
  {
    if q == [] {
      assert [] + [x] == [x];
      assert [x][1..] == [];
    } else {
      assert (q + [x])[1..] == q[1..] + [x];
      SumAppend(g, q[1..], x);
    }
  }

  lemma ExtListStep(g: seq<seq<Edge>>, p: seq<int>, es: seq<Edge>, t: int)
    requires 0 <= t < |es|
    ensures ExtList(g, p, es[..t + 1]) == ExtList(g, p, es[..t]) + Child(g, p, es[t].node)
  {
    assert es[..t + 1][..t] == es[..t];
  }

  /** Every queued prefix is a simple path from the source. */
  ghost predicate FromSource(g: seq<seq<Edge>>, source: int, q: seq<seq<int>>) {
    forall i | 0 <= i < |q| :: SimplePath(g, q[i]) && q[i][0] == source
  }

  /** Queued prefixes are in order of length and span at most two lengths. */
  predicate Levelled(q: seq<seq<int>>) {
    forall i, j | 0 <= i < j < |q| :: |q[i]| <= |q[j]| <= |q[i]| + 1
  }

  /** Every simple path from the source to the target has a prefix in the queue. */
  ghost predicate Covers(g: seq<seq<Edge>>, source: int, target: int, q: seq<seq<int>>) {
    forall r | PathBetween(g, r, source, target) :: exists k | 1 <= k <= |r| :: r[..k] in q
  }

  /**
   * While the entries `es` of the last cell of `p` are being scanned: every
   * simple path from the source to the target has a prefix in the queue, or
   * continues `p` through a cell none of the first t entries leads to.
   */
  ghost predicate CoversBut(g: seq<seq<Edge>>, source: int, target: int, q: seq<seq<int>>,
                            p: seq<int>, es: seq<Edge>, t: int)
  {
    forall r | PathBetween(g, r, source, target) ::
      (exists k | 1 <= k <= |r| :: r[..k] in q) ||
      (|p| < |r| && r[..|p|] == p && forall s | 0 <= s < t && s < |es| :: es[s].node != r[|p|])
  }

  /** The state of the search between two rounds. */
  ghost predicate Searching(g: seq<seq<Edge>>, source: int, target: int, q: seq<seq<int>>) {
    WellFormed(g) && FromSource(g, source, q) && Levelled(q) && Covers(g, source, target, q)
  }

  /** The state of the search while the entries `es` of the last cell of `p` are being scanned. */
  ghost predicate Scanning(g: seq<seq<Edge>>, source: int, target: int, q: seq<seq<int>>,
                           p: seq<int>, es: seq<Edge>, t: int)
  {
    WellFormed(g) && SimplePath(g, p) && p[0] == source && 0 <= p[|p| - 1] < |g| &&
    p[|p| - 1] != target && es == g[p[|p| - 1]] &&
    FromSource(g, source, q) && Levelled(q) &&
    (forall i | 0 <= i < |q| :: |p| <= |q[i]| <= |p| + 1) &&
    0 <= t <= |es| &&
    CoversBut(g, source, target, q, p, es, t)
  }

  /** The last cell of a path lies on the graph. */
  lemma LastInGraph(g: seq<seq<Edge>>, p: seq<int>)
    requires WellFormed(g) && SimplePath(g, p)
    ensures 0 <= p[|p| - 1] < |g|
  {
    if |p| >= 2 {
      assert Linked(g, p[|p| - 2], p[|p| - 1]);
    }
  }

  /** Taking the head off the queue: the rest of the queue and the head's extensions cover every path. */
  lemma {:induction false} StartScan(g: seq<seq<Edge>>, source: int, target: int, q: seq<seq<int>>)
    requires Searching(g, source, target, q) && q != [] && q[0][|q[0]| - 1] != target
    ensures 0 <= q[0][|q[0]| - 1] < |g|
    ensures Scanning(g, source, target, q[1..], q[0], g[q[0][|q[0]| - 1]], 0)
    ensures Sum(g, q) == Ext(g, q[0]) + Sum(g, q[1..])
  {
    var p, rest := q[0], q[1..];
    LastInGraph(g, p);
    forall i | 0 <= i < |rest| ensures SimplePath(g, rest[i]) && rest[i][0] == source {
      assert rest[i] == q[i + 1];
    }
    forall i, j | 0 <= i < j < |rest| ensures |rest[i]| <= |rest[j]| <= |rest[i]| + 1 {
      assert rest[i] == q[i + 1] && rest[j] == q[j + 1];
    }
    forall i | 0 <= i < |rest| ensures |p| <= |rest[i]| <= |p| + 1 {
      assert rest[i] == q[i + 1];
    }
    forall r | PathBetween(g, r, source, target)
      ensures (exists k | 1 <= k <= |r| :: r[..k] in rest) || (|p| < |r| && r[..|p|] == p)
    {
      var k :| 1 <= k <= |r| && r[..k] in q;
      if r[..k] !in rest {
        assert r[..k] == p;
      }
    }
  }

  /** Scanning one entry keeps the queue made of simple paths from the source, in order of length. */
  lemma {:induction false} ScanQueue(g: seq<seq<Edge>>, source: int, q: seq<seq<int>>, p: seq<int>, j: int)
    requires WellFormed(g) && SimplePath(g, p) && p[0] == source && Linked(g, p[|p| - 1], j)
    requires FromSource(g, source, q) && Levelled(q) && forall i | 0 <= i < |q| :: |p| <= |q[i]| <= |p| + 1
    requires j !in p
    ensures var q' := q + [p + [j]];
      FromSource(g, source, q') && Levelled(q') && forall i | 0 <= i < |q'| :: |p| <= |q'[i]| <= |p| + 1
  {
    var q' := q + [p + [j]];
    PathExtends(g, p, j);
    forall i | 0 <= i < |q'| ensures SimplePath(g, q'[i]) && q'[i][0] == source {
      if i < |q| {
        assert q'[i] == q[i];
      }
    }
    forall i, i' | 0 <= i < i' < |q'| ensures |q'[i]| <= |q'[i']| <= |q'[i]| + 1 {
      if i' < |q| {
        assert q'[i] == q[i] && q'[i'] == q[i'];
      } else {
        assert q'[i] == q[i];
      }
    }
    forall i | 0 <= i < |q'| ensures |p| <= |q'[i]| <= |p| + 1 {
      if i < |q| {
        assert q'[i] == q[i];
      }
    }
  }

  /** Scanning one entry keeps every path covered. */
  lemma {:induction false} ScanCover(g: seq<seq<Edge>>, source: int, target: int, q: seq<seq<int>>,
                                     p: seq<int>, es: seq<Edge>, t: int)
    requires CoversBut(g, source, target, q, p, es, t) && 0 <= t < |es|
    ensures var j := es[t].node;
      CoversBut(g, source, target, if j !in p then q + [p + [j]] else q, p, es, t + 1)
  {
    var j := es[t].node;
    var q' := if j !in p then q + [p + [j]] else q;
    forall r | PathBetween(g, r, source, target)
      ensures (exists k | 1 <= k <= |r| :: r[..k] in q') ||
              (|p| < |r| && r[..|p|] == p && forall s | 0 <= s < t + 1 && s < |es| :: es[s].node != r[|p|])
    {
      if exists k | 1 <= k <= |r| :: r[..k] in q {
        var k :| 1 <= k <= |r| && r[..k] in q;
        assert r[..k] in q';
      } else if j == r[|p|] {
        assert r[..|p| + 1] == p + [j];
        assert j !in p by {
          forall s | 0 <= s < |p| ensures p[s] != j {
            assert p[s] == r[s];
          }
        }
        assert r[..|p| + 1] in q';
      }
    }
  }

  /** After the last entry, the queue alone covers every path again. */
  lemma {:induction false} FinishScan(g: seq<seq<Edge>>, source: int, target: int, q: seq<seq<int>>,
                                      p: seq<int>, es: seq<Edge>)
    requires Scanning(g, source, target, q, p, es, |es|)
    ensures Searching(g, source, target, q)
  {
    forall r | PathBetween(g, r, source, target) ensures exists k | 1 <= k <= |r| :: r[..k] in q {
      if |p| < |r| && r[..|p|] == p {
        assert r[|p| - 1] == p[|p| - 1];
        assert Linked(g, r[|p| - 1], r[|p|]);
      }
    }
  }

  /** The head of a covering, levelled queue is no longer than any path. */
  lemma HeadIsShortest(g: seq<seq<Edge>>, source: int, target: int, q: seq<seq<int>>)
    requires q != [] && Levelled(q) && Covers(g, source, target, q)
    ensures forall r | PathBetween(g, r, source, target) :: |q[0]| <= |r|
  {
    forall r | PathBetween(g, r, source, target) ensures |q[0]| <= |r| {
      var k :| 1 <= k <= |r| && r[..k] in q;
      var i :| 0 <= i < |q| && q[i] == r[..k];
    }
  }

  /**
   * The progress check as the source writes it: the search reports when
   * the number of explored cells is a multiple of a tenth of the cells,
   * rounded down. With fewer than ten cells that tenth is zero and the
   * remainder raises a division error, shown here as None.
   */
  function ProgressAsWritten(cells: int, explored: int): (r: Option<bool>)
    requires cells >= 0 && explored >= 0
    ensures r.None? <==> cells < 10
    ensures r.Some? ==> (r.value <==> exists m | 0 <= m <= explored :: explored == m * (cells / 10))
  {
    if cells / 10 == 0 then None
    else
      var d := cells / 10;
      MultipleIff(explored, d);
      Some(explored % d == 0)
  }

  /** x is a multiple of d exactly when the remainder is zero. */
  lemma MultipleIff(x: int, d: int)
    requires x >= 0 && d >= 1
    ensures x % d == 0 <==> exists m | 0 <= m <= x :: x == m * d
  {
    if x % d == 0 {
      var m := x / d;
      assert x == m * d;
      MulMonotone(m, 1, d);
    }
    if m :| 0 <= m <= x && x == m * d {
      DivModUnique(d, x, m, 0);
    }
  }

  /** Every maze the dimension check lets through with fewer than ten cells fails its first progress check. */
  lemma SmallGridProgressFails(height: int, width: int)
    requires ValidDims(height, width) && height * width < 10
    ensures ProgressAsWritten(height * width, 1).None?
  {
  }

  /** The 2 by 2 maze is accepted by the dimension check and fails its first progress check. */
  lemma TwoByTwoFails()
    ensures ValidDims(2, 2) && ProgressAsWritten(CellCount(2, 2), 1).None?
  {
    SmallGridProgressFails(2, 2);
  }

  /** A tenth of the cells, but at least one. */
  function ProgressDivisor(cells: int): (d: int)
    requires cells >= 0
    ensures d >= 1 && (cells >= 10 ==> d == cells / 10) && (cells >= 1 ==> d <= cells)
  {
    if cells / 10 == 0 then 1 else cells / 10
  }

  /**
   * The corrected progress check: the same report as the source wherever
   * the source does not fail, and a report at every explored cell on grids
   * of fewer than ten cells.
   */
  function ProgressDue(cells: int, explored: int): (due: bool)
    requires cells >= 0 && explored >= 0
    ensures ProgressAsWritten(cells, explored).Some? ==> due == ProgressAsWritten(cells, explored).value
    ensures cells < 10 ==> due
  {
    explored % ProgressDivisor(cells) == 0
  }

  /** On every grid some count of explored cells up to the number of cells is reported. */
  lemma ProgressReported(cells: int)
    requires cells >= 1
    ensures exists k | 1 <= k <= cells :: ProgressDue(cells, k)
  {
    var d := ProgressDivisor(cells);
    assert d % d == 0;
    assert ProgressDue(cells, d);
  }

  /** The counts in [1, n] at which a progress line is printed, in increasing order. */
  function DueUpTo(cells: int, n: int): seq<int>
    requires cells >= 0
    decreases n
  {
    if n <= 0 then [] else DueUpTo(cells, n - 1) + (if ProgressDue(cells, n) then [n] else [])
  }

  /** DueUpTo lists exactly the due counts in [1, n]. */
  lemma {:induction false} DueUpToMembers(cells: int, n: int)
    requires cells >= 0
    ensures forall k :: k in DueUpTo(cells, n) <==> 1 <= k <= n && ProgressDue(cells, k)
    decreases n
  {
    if n > 0 {
      DueUpToMembers(cells, n - 1);
      var r0 := DueUpTo(cells, n - 1);
      var tail := if ProgressDue(cells, n) then [n] else [];
      assert DueUpTo(cells, n) == r0 + tail;
      forall k ensures k in r0 + tail <==> 1 <= k <= n && ProgressDue(cells, k) {
        assert k in r0 + tail <==> k in r0 || k in tail;
      }
    }
  }

  /** DueUpTo lists each count once, in increasing order. */
  lemma {:induction false} DueUpToIncreasing(cells: int, n: int)
    requires cells >= 0
    ensures forall a, b | 0 <= a < b < |DueUpTo(cells, n)| :: DueUpTo(cells, n)[a] < DueUpTo(cells, n)[b]
    decreases n
  {
    if n > 0 {
      DueUpToIncreasing(cells, n - 1);
      DueUpToMembers(cells, n - 1);
      var r0 := DueUpTo(cells, n - 1);
      var r := r0 + if ProgressDue(cells, n) then [n] else [];
      assert r == DueUpTo(cells, n);
      forall a, b | 0 <= a < b < |r| ensures r[a] < r[b] {
        assert r[a] == r0[a] && r0[a] in r0;
        if b < |r0| {
          assert r[b] == r0[b];
        }
      }
    }
  }

  /** The progress bookkeeping of one dequeued path: a cell seen for the first time is counted and maybe reported. */
  method Explore(cells: int, explored: seq<int>, current: int, reports: seq<int>)
    returns (explored': seq<int>, reports': seq<int>)
    requires cells >= 0 && reports == DueUpTo(cells, |explored|)
    ensures explored' == if current in explored then explored else explored + [current]
    ensures reports' == DueUpTo(cells, |explored'|)
  {
    explored', reports' := explored, reports;
    if current !in explored {
      explored' := explored + [current];
      if ProgressDue(cells, |explored'|) {
        reports' := reports + [|explored'|];
      }
    }
  }

  /**
   * The search. It returns a shortest simple path from `source` to
   * `target` when there is one and `None` exactly when there is none.
   */
  method Bfs(g: seq<seq<Edge>>, source: int, target: int) returns (r: Option<seq<int>>, reports: seq<int>)
    requires WellFormed(g) && 0 <= source < |g|
    ensures exists n | 0 <= n :: reports == DueUpTo(|g|, n)
    ensures r.Some? ==> PathBetween(g, r.value, source, target)
    ensures r.Some? ==> forall p | PathBetween(g, p, source, target) :: |r.value| <= |p|
    ensures r.None? <==> forall p :: !PathBetween(g, p, source, target)
  {
    var paths: seq<seq<int>> := [[source]];
    assert Covers(g, source, target, paths) by {
      forall p | PathBetween(g, p, source, target) ensures p[..1] in paths {
        assert p[..1] == [source];
      }
    }
    var explored: seq<int> := [];
    reports := [];
    while paths != []
      invariant Searching(g, source, target, paths)
      invariant reports == DueUpTo(|g|, |explored|)
      decreases Sum(g, paths)
    {
      var path := paths[0];
      LastInGraph(g, path);
      var current := path[|path| - 1];
      explored, reports := Explore(|g|, explored, current, reports);
      if current == target {
        HeadIsShortest(g, source, target, paths);
        return Some(path), reports;
      }
      StartScan(g, source, target, paths);
      paths := paths[1..];
      var es := g[current];
      paths := Expand(g, source, target, paths, path, es);
      FinishScan(g, source, target, paths, path, es);
    }
    return None, reports;
  }

  /** The extensions of `path` by the entries `es`: one per entry leading off the path, in entry order. */
  function Extensions(path: seq<int>, es: seq<Edge>): seq<seq<int>> {
    if es == [] then []
    else Extensions(path, es[..|es| - 1]) +
         (if es[|es| - 1].node in path then [] else [path + [es[|es| - 1].node]])
  }

  /** An extension is the path followed by a neighbour not on it, and every such neighbour gives one. */
  lemma {:induction false} ExtensionsMembers(path: seq<int>, es: seq<Edge>)
    ensures forall q :: q in Extensions(path, es) <==>
      exists t | 0 <= t < |es| :: es[t].node !in path && q == path + [es[t].node]
  {
    if es != [] {
      var init := es[..|es| - 1];
      ExtensionsMembers(path, init);
      forall q ensures q in Extensions(path, es) <==>
        exists t | 0 <= t < |es| :: es[t].node !in path && q == path + [es[t].node]
      {
        if exists t | 0 <= t < |es| :: es[t].node !in path && q == path + [es[t].node] {
          var t :| 0 <= t < |es| && es[t].node !in path && q == path + [es[t].node];
          if t < |init| {
            assert init[t] == es[t];
          }
        }
        if exists t | 0 <= t < |init| :: init[t].node !in path && q == path + [init[t].node] {
          var t :| 0 <= t < |init| && init[t].node !in path && q == path + [init[t].node];
          assert es[t] == init[t];
        }
      }
    }
  }

  lemma ExtensionsStep(path: seq<int>, es: seq<Edge>, t: int)
    requires 0 <= t < |es|
    ensures Extensions(path, es[..t + 1]) ==
      Extensions(path, es[..t]) + (if es[t].node in path then [] else [path + [es[t].node]])
  {
    assert es[..t + 1][..t] == es[..t];
  }

  /**
   * One pass over the entries of the last cell of `path`: every neighbour
   * not already on the path gives an extended path at the back of the queue.
   */
  method Expand(g: seq<seq<Edge>>, source: int, target: int, queue: seq<seq<int>>, path: seq<int>,
                es: seq<Edge>)
    returns (queue': seq<seq<int>>)
    requires Scanning(g, source, target, queue, path, es, 0)
    ensures queue' == queue + Extensions(path, es)
    ensures Scanning(g, source, target, queue', path, es, |es|)
    ensures Sum(g, queue') == Sum(g, queue) + ExtList(g, path, es)
  {
    queue' := queue;
    assert es[..0] == [];
    for t := 0 to |es|
      invariant queue' == queue + Extensions(path, es[..t])
      invariant Scanning(g, source, target, queue', path, es, t)
      invariant Sum(g, queue') == Sum(g, queue) + ExtList(g, path, es[..t])
    {
      queue' := ScanEntry(g, source, target, queue, queue', path, es, t);
    }
    assert es[..|es|] == es;
  }

  /**
   * Entry t of the scan: a neighbour not on the path gives one extended
   * path at the back of the queue, which then holds the extensions by the
   * first t + 1 entries.
   */
  method ScanEntry(g: seq<seq<Edge>>, source: int, target: int, start: seq<seq<int>>, queue: seq<seq<int>>,
                   path: seq<int>, es: seq<Edge>, t: int)
    returns (queue': seq<seq<int>>)
    requires Scanning(g, source, target, queue, path, es, t) && t < |es|
    requires queue == start + Extensions(path, es[..t])
    requires Sum(g, queue) == Sum(g, start) + ExtList(g, path, es[..t])
    ensures queue' == start + Extensions(path, es[..t + 1])
    ensures Scanning(g, source, target, queue', path, es, t + 1)
    ensures Sum(g, queue') == Sum(g, start) + ExtList(g, path, es[..t + 1])
  {
    var next := es[t].node;
    ScanCover(g, source, target, queue, path, es, t);
    queue' := queue;
    if next !in path {
      assert Linked(g, path[|path| - 1], next);
      ScanQueue(g, source, queue, path, next);
      queue' := queue + [path + [next]];
    }
    ScanCount(g, start, queue, queue', path, es, t);
  }

  /** Scanning one more entry extends the queue and its count by that entry's extension, if any. */
  lemma ScanCount(g: seq<seq<Edge>>, start: seq<seq<int>>, queue: seq<seq<int>>, queue': seq<seq<int>>,
                  path: seq<int>, es: seq<Edge>, t: int)
    requires 0 <= t < |es| && (es[t].node !in path ==> 0 <= es[t].node < |g|)
    requires queue' == if es[t].node in path then queue else queue + [path + [es[t].node]]
    requires queue == start + Extensions(path, es[..t])
    requires Sum(g, queue) == Sum(g, start) + ExtList(g, path, es[..t])
    ensures queue' == start + Extensions(path, es[..t + 1])
    ensures Sum(g, queue') == Sum(g, start) + ExtList(g, path, es[..t + 1])
  {
    var next := es[t].node;
    var done := Extensions(path, es[..t]);
    ExtListStep(g, path, es, t);
    ExtensionsStep(path, es, t);
    if next !in path {
      SumAppend(g, queue, path + [next]);
      assert Child(g, path, next) == Ext(g, path + [next]);
      assert queue' == start + (done + [path + [next]]);
    } else {
      assert Child(g, path, next) == 0;
      assert done + [] == done;
    }
  }
}
