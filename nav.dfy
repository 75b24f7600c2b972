/**
 * The grid planner of `src/nav.py`: `A_star`, a closed-set best-first
 * search over integer nodes driven by a heap of `(cost, cost, path)`
 * entries, and `MapGrid`, which numbers the cells of a square grid,
 * enumerates their neighbours and turns node numbers back into points.
 */
module Nav {
  import opened Wrappers

  // ---------------------------------------------------------------------
  // Paths and reachability
  // ---------------------------------------------------------------------

  /** A non-empty walk in which each node is one of the successors of the node before it. */
  predicate IsPath(successors: int -> seq<int>, p: seq<int>)
  {
    |p| >= 1 && forall k :: 0 <= k < |p| - 1 ==> p[k + 1] in successors(p[k])
  }

  predicate IsPathFrom(successors: int -> seq<int>, p: seq<int>, start: int, goal: int)
  {
    IsPath(successors, p) && p[0] == start && p[|p| - 1] == goal
  }

  ghost predicate Reachable(successors: int -> seq<int>, start: int, goal: int)
  {
    exists p :: IsPathFrom(successors, p, start, goal)
  }

  /** No successor of a node of `nodes` lies outside `nodes`. */
  ghost predicate ClosedUnder(successors: int -> seq<int>, nodes: set<int>)
  {
    forall n, s :: n in nodes && s in successors(n) ==> s in nodes
  }

  /** A walk extended by a successor of its last node is still a walk from the same node. */
  lemma ExtendPath(successors: int -> seq<int>, p: seq<int>, s: int)
    requires IsPath(successors, p) && s in successors(p[|p| - 1])
    ensures IsPath(successors, p + [s]) && (p + [s])[0] == p[0]
  {
    var q := p + [s];
    forall k | 0 <= k < |q| - 1
      ensures q[k + 1] in successors(q[k])
    {
      if k < |p| - 1 {
        assert q[k] == p[k] && q[k + 1] == p[k + 1];
      }
    }
  }

  /** A walk that starts inside a set closed under `successors` never leaves it. */
  lemma {:induction false} PathStaysInside(successors: int -> seq<int>, nodes: set<int>, p: seq<int>, k: nat)
    requires ClosedUnder(successors, nodes) && IsPath(successors, p) && p[0] in nodes
    requires k < |p|
    ensures p[k] in nodes
  {
    if k > 0 {
      PathStaysInside(successors, nodes, p, k - 1);
      var previous, next := p[k - 1], p[k];
      assert previous in nodes && next in successors(previous);
      assert next in nodes;
    }
  }

  /** A node outside a closed set that holds `start` cannot be reached from `start`. */
  lemma EnclosedGoalUnreachable(successors: int -> seq<int>, nodes: set<int>, start: int, goal: int)
    requires ClosedUnder(successors, nodes) && start in nodes && goal !in nodes
    ensures !Reachable(successors, start, goal)
  {
    forall p | IsPath(successors, p) && p[0] == start
      ensures p[|p| - 1] != goal
    {
      PathStaysInside(successors, nodes, p, |p| - 1);
    }
  }

  // ---------------------------------------------------------------------
  // Heap entries and their order
  // ---------------------------------------------------------------------

  /**
   * Python's order on tuples of integers: element by element, a proper
   * prefix before any of its extensions.
   */
  predicate PathLeq(a: seq<int>, b: seq<int>)
    decreases |a|
  {
    a == [] || (b != [] && (a[0] < b[0] || (a[0] == b[0] && PathLeq(a[1..], b[1..]))))
  }

  lemma {:induction false} PathLeqTotal(a: seq<int>, b: seq<int>)
    ensures PathLeq(a, b) || PathLeq(b, a)
    decreases |a|
  {
    if a != [] && b != [] && a[0] == b[0] {
      PathLeqTotal(a[1..], b[1..]);
    }
  }

  lemma {:induction false} PathLeqTransitive(a: seq<int>, b: seq<int>, c: seq<int>)
    requires PathLeq(a, b) && PathLeq(b, c)
    ensures PathLeq(a, c)
    decreases |a|
  {
    if a != [] && a[0] == b[0] && b[0] == c[0] {
      PathLeqTransitive(a[1..], b[1..], c[1..]);
    }
  }

  lemma {:induction false} PathLeqAntisymmetric(a: seq<int>, b: seq<int>)
    requires PathLeq(a, b) && PathLeq(b, a)
    ensures a == b
    decreases |a|
  {
    if a != [] {
      PathLeqAntisymmetric(a[1..], b[1..]);
      assert a == [a[0]] + a[1..] && b == [b[0]] + b[1..];
    }
  }

  /** An entry `(first, second, path)` of the heap `open`. */
  datatype Entry = Entry(first: real, second: real, path: seq<int>)

  /** Tuple order on entries, the order `heapq` keeps. */
  predicate EntryLeq(x: Entry, y: Entry)
  {
    x.first < y.first
    || (x.first == y.first && (x.second < y.second || (x.second == y.second && PathLeq(x.path, y.path))))
  }

  lemma EntryLeqTotal(x: Entry, y: Entry)
    ensures EntryLeq(x, y) || EntryLeq(y, x)
  {
    PathLeqTotal(x.path, y.path);
  }

  lemma EntryLeqTransitive(x: Entry, y: Entry, z: Entry)
    requires EntryLeq(x, y) && EntryLeq(y, z)
    ensures EntryLeq(x, z)
  {
    if x.first == y.first == z.first && x.second == y.second == z.second {
      PathLeqTransitive(x.path, y.path, z.path);
    }
  }

  /** The least entry of a heap is one value: whichever copy `heappop` takes, it pops the same entry. */
  lemma LeastEntryIsUnique(open: seq<Entry>, x: Entry, y: Entry)
    requires x in open && y in open
    requires forall e :: e in open ==> EntryLeq(x, e)
    requires forall e :: e in open ==> EntryLeq(y, e)
    ensures x == y
  {
    assert EntryLeq(x, y) && EntryLeq(y, x);
    if x.first == y.first && x.second == y.second {
      PathLeqAntisymmetric(x.path, y.path);
    }
  }

  /** Where `heapq.heappop` takes its entry from: a position of a least entry. */
  method LeastIndex(open: seq<Entry>) returns (k: nat)
    requires |open| >= 1
    ensures k < |open| && forall e :: e in open ==> EntryLeq(open[k], e)
  {
    k := 0;
    EntryLeqTotal(open[0], open[0]);
    var i := 1;
    while i < |open|
      invariant 1 <= i <= |open| && k < i
      invariant forall m :: 0 <= m < i ==> EntryLeq(open[k], open[m])
    {
      EntryLeqTotal(open[k], open[i]);
      if !EntryLeq(open[k], open[i]) {
        forall m | 0 <= m < i
          ensures EntryLeq(open[i], open[m])
        {
          EntryLeqTransitive(open[i], open[k], open[m]);
        }
        EntryLeqTotal(open[i], open[i]);
        k := i;
      }
      i := i + 1;
    }
  }

  // ---------------------------------------------------------------------
  // The search
  // ---------------------------------------------------------------------

  datatype SearchError = NoPathFound

  /** Some entry of `open` has a path ending at `n`. */
  predicate InFrontier(open: seq<Entry>, n: int)
  {
    exists e :: e in open && |e.path| >= 1 && e.path[|e.path| - 1] == n
  }

  /** Every entry holds a walk from `start` whose last node lies in `universe`. */
  ghost predicate WellFormed(open: seq<Entry>, successors: int -> seq<int>, start: int, universe: set<int>)
  {
    forall e :: e in open ==> IsPath(successors, e.path) && e.path[0] == start && e.path[|e.path| - 1] in universe
  }

  /**
   * What the search has established: every closed node was reached from
   * `start` and recorded once in `expanded`, and each successor of a closed
   * node is closed itself or waits at the end of a path in `open`.
   */
  ghost predicate SearchInvariant(open: seq<Entry>, closed: set<int>, expanded: seq<int>,
                                  successors: int -> seq<int>, start: int, goal: int, universe: set<int>)
  {
    && closed <= universe
    && (forall n :: n in expanded <==> n in closed)
    && (forall a, b :: 0 <= a < b < |expanded| ==> expanded[a] != expanded[b])
    && (forall n :: n in closed ==> Reachable(successors, start, n))
    && goal !in closed
    && WellFormed(open, successors, start, universe)
    && (start in closed || InFrontier(open, start))
    && (forall n, s :: n in closed && s in successors(n) ==> s in closed || InFrontier(open, s))
  }

  /**
   * `A_star(start, goal, successors, edge_cost, heuristic_cost_to_goal)`.
   * Entries are pushed as `(new_cost_so_far, new_heuristic_cost, path)` but
   * read back as `(heuristic_cost, cost_so_far, path)`, exactly as the source
   * does, so the order of expansion is not cost order; what the search
   * guarantees is a walk of successors, and that it fails only when the goal
   * cannot be reached. `universe` is a finite set of nodes closed under
   * `successors` that holds `start`: the search then ends.
   */
  method AStar(start: int, goal: int, successors: int -> seq<int>, edgeCost: (int, int) -> real,
               heuristic: (int, int) -> real, ghost universe: set<int>)
    returns (r: Result<seq<int>, SearchError>, ghost expanded: seq<int>)
    requires start in universe && ClosedUnder(successors, universe)
    ensures r.Ok? ==> IsPathFrom(successors, r.value, start, goal)
    ensures start == goal ==> r == Ok([start])
    ensures r.Err? <==> !Reachable(successors, start, goal)
    ensures forall a, b :: 0 <= a < b < |expanded| ==> expanded[a] != expanded[b]
    ensures forall n :: n in expanded ==> Reachable(successors, start, n) && n != goal
  {
    var closed: set<int> := {};
    var open := [Entry(0.0, 0.0, [start])];
    expanded := [];
    assert InFrontier(open, start) by {
      assert open[0] in open;
    }
    while open != []
      invariant SearchInvariant(open, closed, expanded, successors, start, goal, universe)
      invariant start == goal ==> closed == {} && open == [Entry(0.0, 0.0, [start])]
      decreases |universe - closed|, |open|
    {
      var k := LeastIndex(open);
      var popped := open[k];
      ghost var before := open;
      open := open[..k] + open[k + 1..];
      // the entry was pushed as (cost, heuristic cost, path) and is unpacked the other way round
      var heuristicCost, costSoFar, path := popped.first, popped.second, popped.path;
      PoppedIsWalk(before, k, successors, start, universe);
      var tail := path[|path| - 1];
      if tail in closed {
        SkipClosed(before, k, closed, expanded, successors, start, goal, universe);
        continue;
      }
      if tail == goal {
        assert IsPathFrom(successors, path, start, goal);
        return Ok(path), expanded;
      }
      var successorsOfTail := successors(tail);
      open := PushSuccessors(open, path, costSoFar, successorsOfTail, edgeCost, heuristic, goal);
      ExpandTail(before, k, open, closed, expanded, successors, start, goal, universe);
      closed := closed + {tail};
      expanded := expanded + [tail];
    }
    EnclosedGoalUnreachable(successors, closed, start, goal);
    return Err(NoPathFound), expanded;
  }

  /**
   * The `for new_tail in successors(tail)` loop: one entry pushed per
   * successor, in order, each extending `path` by that successor.
   */
  method PushSuccessors(open: seq<Entry>, path: seq<int>, costSoFar: real, successorsOfTail: seq<int>,
                        edgeCost: (int, int) -> real, heuristic: (int, int) -> real, goal: int)
    returns (pushed: seq<Entry>)
    requires |path| >= 1
    ensures |pushed| == |open| + |successorsOfTail| && pushed[..|open|] == open
    ensures forall j :: 0 <= j < |successorsOfTail| ==>
      var tail, newTail := path[|path| - 1], successorsOfTail[j];
      var newCostSoFar := costSoFar + edgeCost(tail, newTail);
      pushed[|open| + j] == Entry(newCostSoFar, newCostSoFar + heuristic(newTail, goal), path + [newTail])
  {
    var tail := path[|path| - 1];
    pushed := open;
    for m := 0 to |successorsOfTail|
      invariant |pushed| == |open| + m && pushed[..|open|] == open
      invariant forall j :: 0 <= j < m ==>
        var newTail := successorsOfTail[j];
        var newCostSoFar := costSoFar + edgeCost(tail, newTail);
        pushed[|open| + j] == Entry(newCostSoFar, newCostSoFar + heuristic(newTail, goal), path + [newTail])
    {
      var newTail := successorsOfTail[m];
      var newCostSoFar := costSoFar + edgeCost(tail, newTail);
      var newHeuristicCost := newCostSoFar + heuristic(newTail, goal);
      pushed := pushed + [Entry(newCostSoFar, newHeuristicCost, path + [newTail])];
    }
  }

  /** Every popped entry holds a walk from `start` into `universe`. */
  lemma PoppedIsWalk(open: seq<Entry>, k: nat, successors: int -> seq<int>, start: int, universe: set<int>)
    requires WellFormed(open, successors, start, universe) && k < |open|
    ensures IsPath(successors, open[k].path) && open[k].path[0] == start
    ensures open[k].path[|open[k].path| - 1] in universe
  {
    assert open[k] in open;
  }

  /** Dropping an entry whose last node is already closed keeps the search invariant. */
  lemma SkipClosed(open: seq<Entry>, k: nat, closed: set<int>, expanded: seq<int>,
                   successors: int -> seq<int>, start: int, goal: int, universe: set<int>)
    requires SearchInvariant(open, closed, expanded, successors, start, goal, universe)
    requires k < |open| && |open[k].path| >= 1 && open[k].path[|open[k].path| - 1] in closed
    ensures SearchInvariant(open[..k] + open[k + 1..], closed, expanded, successors, start, goal, universe)
  {
    var rest := open[..k] + open[k + 1..];
    forall e | e in open && e != open[k]
      ensures e in rest
    {
      var i :| 0 <= i < |open| && open[i] == e;
      if i < k {
        assert rest[i] == e;
      } else {
        assert rest[i - 1] == e;
      }
    }
    forall n | InFrontier(open, n)
      ensures n in closed || InFrontier(rest, n)
    {
      var e :| e in open && |e.path| >= 1 && e.path[|e.path| - 1] == n;
      if e != open[k] {
        assert e in rest;
      }
    }
    assert WellFormed(rest, successors, start, universe);
  }

  /** The entries pushed for the successors of a walk's last node, with the rest of the heap. */
  ghost predicate PushedAfter(pushed: seq<Entry>, rest: seq<Entry>, path: seq<int>, successorsOfTail: seq<int>)
  {
    && |pushed| == |rest| + |successorsOfTail| && pushed[..|rest|] == rest
    && forall j :: 0 <= j < |successorsOfTail| ==> pushed[|rest| + j].path == path + [successorsOfTail[j]]
  }

  /** Pushing one-node extensions of a walk keeps every entry a walk, and puts each successor on the frontier. */
  lemma PushedWalks(open: seq<Entry>, k: nat, pushed: seq<Entry>, successors: int -> seq<int>, start: int, universe: set<int>)
    requires WellFormed(open, successors, start, universe) && ClosedUnder(successors, universe)
    requires k < |open| && |open[k].path| >= 1
    requires PushedAfter(pushed, open[..k] + open[k + 1..], open[k].path, successors(open[k].path[|open[k].path| - 1]))
    ensures WellFormed(pushed, successors, start, universe)
    ensures forall e :: e in open && e != open[k] ==> e in pushed
    ensures forall s :: s in successors(open[k].path[|open[k].path| - 1]) ==> InFrontier(pushed, s)
  {
    var path, rest := open[k].path, open[..k] + open[k + 1..];
    var tail := path[|path| - 1];
    var successorsOfTail := successors(tail);
    assert open[k] in open;
    forall e | e in open && e != open[k]
      ensures e in pushed
    {
      var i :| 0 <= i < |open| && open[i] == e;
      if i < k {
        assert pushed[i] == rest[i] == e;
      } else {
        assert pushed[i - 1] == rest[i - 1] == e;
      }
    }
    forall e | e in pushed
      ensures IsPath(successors, e.path) && e.path[0] == start && e.path[|e.path| - 1] in universe
    {
      var i :| 0 <= i < |pushed| && pushed[i] == e;
      if i < |rest| {
        assert pushed[i] == rest[i] && rest[i] in open;
      } else {
        var s := successorsOfTail[i - |rest|];
        assert tail in universe && s in successorsOfTail;
        ExtendPath(successors, path, s);
      }
    }
    forall s | s in successorsOfTail
      ensures InFrontier(pushed, s)
    {
      var j :| 0 <= j < |successorsOfTail| && successorsOfTail[j] == s;
      var e := pushed[|rest| + j];
      assert e in pushed && e.path[|e.path| - 1] == s;
    }
  }

  /** Recording a node not yet recorded keeps the record free of repetitions. */
  lemma RecordFresh(expanded: seq<int>, tail: int)
    requires forall a, b :: 0 <= a < b < |expanded| ==> expanded[a] != expanded[b]
    requires tail !in expanded
    ensures forall a, b :: 0 <= a < b < |expanded + [tail]| ==> (expanded + [tail])[a] != (expanded + [tail])[b]
  {
    var expanded' := expanded + [tail];
    forall a, b | 0 <= a < b < |expanded'|
      ensures expanded'[a] != expanded'[b]
    {
      if b == |expanded'| - 1 {
        assert expanded'[a] == expanded[a] && expanded[a] in expanded;
      }
    }
  }

  /** What waited in `open` is closed now or still waits in `pushed`. */
  lemma FrontierKept(open: seq<Entry>, k: nat, pushed: seq<Entry>, closed: set<int>)
    requires k < |open| && |open[k].path| >= 1 && open[k].path[|open[k].path| - 1] in closed
    requires forall e :: e in open && e != open[k] ==> e in pushed
    ensures forall n :: InFrontier(open, n) ==> n in closed || InFrontier(pushed, n)
  {
    forall n | InFrontier(open, n)
      ensures n in closed || InFrontier(pushed, n)
    {
      var e :| e in open && |e.path| >= 1 && e.path[|e.path| - 1] == n;
      if e != open[k] {
        assert e in pushed;
      }
    }
  }

  /**
   * Closing the last node of the popped path and pushing its successors
   * keeps the search invariant, and leaves fewer nodes of `universe` open
   * to expansion.
   */
  lemma ExpandTail(open: seq<Entry>, k: nat, pushed: seq<Entry>, closed: set<int>, expanded: seq<int>,
                   successors: int -> seq<int>, start: int, goal: int, universe: set<int>)
    requires SearchInvariant(open, closed, expanded, successors, start, goal, universe)
    requires ClosedUnder(successors, universe)
    requires k < |open| && |open[k].path| >= 1
    requires open[k].path[|open[k].path| - 1] !in closed && open[k].path[|open[k].path| - 1] != goal
    requires PushedAfter(pushed, open[..k] + open[k + 1..], open[k].path, successors(open[k].path[|open[k].path| - 1]))
    ensures
      var tail := open[k].path[|open[k].path| - 1];
      && SearchInvariant(pushed, closed + {tail}, expanded + [tail], successors, start, goal, universe)
      && |universe - (closed + {tail})| < |universe - closed|
  {
    var path := open[k].path;
    var tail := path[|path| - 1];
    var closed', expanded' := closed + {tail}, expanded + [tail];
    PushedWalks(open, k, pushed, successors, start, universe);
    PoppedIsWalk(open, k, successors, start, universe);
    assert IsPathFrom(successors, path, start, tail);
    assert universe - closed == (universe - closed') + {tail};
    RecordFresh(expanded, tail);
    FrontierKept(open, k, pushed, closed');
    assert start in closed' || InFrontier(pushed, start);
    forall n, s | n in closed' && s in successors(n)
      ensures s in closed' || InFrontier(pushed, s)
    {
      if n != tail {
        assert s in closed || InFrontier(open, s);
      }
    }
    assert forall n :: n in closed' ==> Reachable(successors, start, n);
  }

  // ---------------------------------------------------------------------
  // The grid
  // ---------------------------------------------------------------------

  /**
   * `MapGrid(width, height, resolution)`: `grid_width` and `grid_height` are
   * both `resolution`. `add_obstacle` does nothing, so `obstacles` only ever
   * holds what it was given.
   */
  datatype Grid = Grid(width: real, height: real, resolution: int, obstacles: set<int>)

  /** A grid whose divisions are defined: positive extents, at least one cell per side. */
  type MapGrid = g: Grid | g.width > 0.0 && g.height > 0.0 && g.resolution >= 1
    witness Grid(1.0, 1.0, 1, {})

  /** Python's `int()` on a float: the integer part, rounding toward zero. */
  function Trunc(x: real): (n: int)
    ensures x >= 0.0 ==> 0 <= n && n as real <= x < n as real + 1.0
    ensures x < 0.0 ==> n <= 0 && n as real - 1.0 < x <= n as real
  {
    if x >= 0.0 then x.Floor else -((-x).Floor)
  }

  /** The cell index along one axis: `int(cells * (v + extent / 2) / extent)`. */
  function CellIndex(extent: real, cells: int, v: real): int
    requires extent > 0.0
  {
    Trunc(cells as real * (v + extent / 2.0) / extent)
  }

  /** `node(x, y)`: the column times `resolution` plus the row. */
  function Node(g: MapGrid, x: real, y: real): int
  {
    CellIndex(g.width, g.resolution, x) * g.resolution + CellIndex(g.height, g.resolution, y)
  }

  /**
   * `cost(node1, node2)`: every step costs the same. The source returns the
   * constant 1.0 whatever the nodes, so that constant is the whole promise.
   */
  function Cost(g: MapGrid, node1: int, node2: int): (r: real)
    ensures r == 1.0
  {
    1.0
  }

  /**
   * `distance(node1, node2)`: `hypot` of the differences, where both
   * coordinates are taken as `node % resolution`.
   */
  function Distance(g: MapGrid, hypot: (real, real) -> real, node1: int, node2: int): real
  {
    var i1, j1 := node1 % g.resolution, node1 % g.resolution;
    var i2, j2 := node2 % g.resolution, node2 % g.resolution;
    hypot((i1 - i2) as real, (j1 - j2) as real)
  }

  /** `coord(node)`: the corner of the cell `(node % resolution, node / resolution)`. */
  function Coord(g: MapGrid, node: int): (real, real)
  {
    var i := node % g.resolution;
    var j := node / g.resolution;
    (g.width * i as real / g.resolution as real - g.width / 2.0,
     g.height * j as real / g.resolution as real - g.height / 2.0)
  }

  /** A point of the grid's rectangle falls in a cell of index `0 .. cells - 1`. */
  lemma CellIndexInRange(extent: real, cells: int, v: real)
    requires extent > 0.0 && cells >= 1 && -extent / 2.0 <= v < extent / 2.0
    ensures 0 <= CellIndex(extent, cells, v) < cells
  {
    var offset := v + extent / 2.0;
    assert 0.0 <= offset < extent;
    var scaled := cells as real * offset / extent;
    assert cells as real * offset < cells as real * extent;
    assert 0.0 <= scaled < cells as real;
  }

  lemma {:induction false} MulAtLeast(a: int, res: int)
    requires a >= 1 && res >= 1
    ensures a * res >= res
  {
    if a > 1 {
      MulAtLeast(a - 1, res);
      assert a * res == (a - 1) * res + res;
    }
  }

  /** `i * res + j` with `0 <= j < res` divides back into `i` and `j`. */
  lemma DivModOfCell(i: int, j: int, res: int)
    requires res >= 1 && 0 <= j < res
    ensures (i * res + j) / res == i && (i * res + j) % res == j
  {
    var n := i * res + j;
    var q, r := n / res, n % res;
    assert q * res + r == i * res + j;
    assert (q - i) * res == j - r;
    if q > i {
      MulAtLeast(q - i, res);
      assert false;
    } else if q < i {
      MulAtLeast(i - q, res);
      assert false;
    }
  }

  /**
   * For a point of the rectangle `[-width/2, width/2) x [-height/2, height/2)`,
   * `node` is `i * resolution + j` for the column `i` of `x` and the row `j`
   * of `y`, both in `0 .. resolution - 1`.
   */
  lemma NodeInRange(g: MapGrid, x: real, y: real)
    requires -g.width / 2.0 <= x < g.width / 2.0 && -g.height / 2.0 <= y < g.height / 2.0
    ensures var i, j := CellIndex(g.width, g.resolution, x), CellIndex(g.height, g.resolution, y);
      && 0 <= i < g.resolution && 0 <= j < g.resolution
      && Node(g, x, y) == i * g.resolution + j
      && 0 <= Node(g, x, y) < g.resolution * g.resolution
  {
    var res := g.resolution;
    var i, j := CellIndex(g.width, res, x), CellIndex(g.height, res, y);
    CellIndexInRange(g.width, res, x);
    CellIndexInRange(g.height, res, y);
    MulMonotone(0, i, res);
    MulMonotone(i, res - 1, res);
    assert (res - 1) * res == res * res - res;
    assert 0 <= i * res <= res * res - res;
  }

  /**
   * `coord` reads the node the other way round from `node`: the node of
   * column `i` and row `j` comes back as the corner of column `j` and row `i`.
   */
  lemma CoordTransposes(g: MapGrid, i: int, j: int)
    requires 0 <= i < g.resolution && 0 <= j < g.resolution
    ensures Coord(g, i * g.resolution + j)
      == (g.width * j as real / g.resolution as real - g.width / 2.0,
          g.height * i as real / g.resolution as real - g.height / 2.0)
  {
    DivModOfCell(i, j, g.resolution);
  }

  /** On the 10 x 10 grid of resolution 200, the point (-5, 0) comes back as (0, -5). */
  lemma NodeThenCoordSwapsAxes()
    ensures var g: MapGrid := Grid(10.0, 10.0, 200, {});
      Node(g, -5.0, 0.0) == 100 && Coord(g, Node(g, -5.0, 0.0)) == (0.0, -5.0)
  {
    var g: MapGrid := Grid(10.0, 10.0, 200, {});
    assert CellIndex(10.0, 200, -5.0) == 0;
    assert CellIndex(10.0, 200, 0.0) == 100;
  }

  /** The heuristic only looks at `node % resolution`: nodes a row apart are at the same distance from everything. */
  lemma DistanceIgnoresRows(g: MapGrid, hypot: (real, real) -> real, node1: int, node2: int, rows: int)
    ensures Distance(g, hypot, node1 + rows * g.resolution, node2) == Distance(g, hypot, node1, node2)
  {
    var res := g.resolution;
    DivModOfCell(node1 / res + rows, node1 % res, res);
    assert node1 + rows * res == (node1 / res + rows) * res + node1 % res;
  }

  // ---------------------------------------------------------------------
  // Neighbours
  // ---------------------------------------------------------------------

  /** The eight candidates of `_adjacent`, in the order it yields them. */
  datatype Move = Right | Up | UpRight | DownRight | DownLeft | Left | Down | UpLeft

  const MoveOrder: seq<Move> := [Right, Up, UpRight, DownRight, DownLeft, Left, Down, UpLeft]

  /** The guard of each candidate, for `i = node % res`, `j = node / res` and `w = h = res`. */
  predicate Allowed(m: Move, i: int, j: int, w: int, h: int)
  {
    match m
    case Right => i < w
    case Up => j < h
    case UpRight => i < w && j <= h
    case DownRight => i < w && j > 0
    case DownLeft => i > 0 && j > 0
    case Left => i > 0
    case Down => j > 0
    case UpLeft => i > 0 && j <= h
  }

  /** The node each candidate yields; `DownLeft` yields `(i + 1) * res + j + 1`, as written. */
  function Target(m: Move, i: int, j: int, res: int): int
  {
    match m
    case Right => (i + 1) * res + j
    case Up => i * res + j + 1
    case UpRight => (i + 1) * res + j + 1
    case DownRight => (i + 1) * res + j - 1
    case DownLeft => (i + 1) * res + j + 1
    case Left => (i - 1) * res + j
    case Down => i * res + j - 1
    case UpLeft => (i - 1) * res + j + 1
  }

  /** The moves of `ms` whose guard holds, in their order. */
  function AllowedMoves(ms: seq<Move>, i: int, j: int, w: int, h: int): (r: seq<Move>)
    ensures forall m :: m in r <==> m in ms && Allowed(m, i, j, w, h)
    ensures |r| <= |ms|
  {
    if ms == [] then []
    else (if Allowed(ms[0], i, j, w, h) then [ms[0]] else []) + AllowedMoves(ms[1..], i, j, w, h)
  }

  /** The moves `_adjacent(node)` yields. */
  function MovesAt(g: MapGrid, node: int): seq<Move>
  {
    AllowedMoves(MoveOrder, node % g.resolution, node / g.resolution, g.resolution, g.resolution)
  }

  /** `_adjacent(node)`: the nodes of the allowed moves, in order. */
  function Candidates(g: MapGrid, node: int): (r: seq<int>)
    ensures |r| == |MovesAt(g, node)|
  {
    var moves := MovesAt(g, node);
    seq(|moves|, k requires 0 <= k < |moves| =>
      Target(moves[k], node % g.resolution, node / g.resolution, g.resolution))
  }

  /** A node is a candidate of `_adjacent(node)` exactly when some move's guard lets it through to that node. */
  lemma CandidatesAreAllowedTargets(g: MapGrid, node: int, n: int)
    ensures var i, j, res := node % g.resolution, node / g.resolution, g.resolution;
      n in Candidates(g, node) <==> exists m :: Allowed(m, i, j, res, res) && n == Target(m, i, j, res)
  {
    var i, j, res := node % g.resolution, node / g.resolution, g.resolution;
    var r := Candidates(g, node);
    if n in r {
      var k :| 0 <= k < |r| && r[k] == n;
      CandidateIsAllowedTarget(g, node, k);
    }
    if m :| Allowed(m, i, j, res, res) && n == Target(m, i, j, res) {
      AllowedTargetIsCandidate(g, node, m);
    }
  }

  lemma CandidateIsAllowedTarget(g: MapGrid, node: int, k: int)
    requires 0 <= k < |Candidates(g, node)|
    ensures var i, j, res := node % g.resolution, node / g.resolution, g.resolution;
      Allowed(MovesAt(g, node)[k], i, j, res, res)
      && Candidates(g, node)[k] == Target(MovesAt(g, node)[k], i, j, res)
  {
    var moves := MovesAt(g, node);
    assert moves[k] in moves;
  }

  lemma AllowedTargetIsCandidate(g: MapGrid, node: int, m: Move)
    requires Allowed(m, node % g.resolution, node / g.resolution, g.resolution, g.resolution)
    ensures Target(m, node % g.resolution, node / g.resolution, g.resolution) in Candidates(g, node)
  {
    var moves := MovesAt(g, node);
    EveryMoveListed(m);
    assert m in moves;
    var k := IndexOf(moves, m);
    assert Candidates(g, node)[k] == Target(m, node % g.resolution, node / g.resolution, g.resolution);
  }

  lemma EveryMoveListed(m: Move)
    ensures m in MoveOrder
  {
    match m
    case Right => assert MoveOrder[0] == m;
    case Up => assert MoveOrder[1] == m;
    case UpRight => assert MoveOrder[2] == m;
    case DownRight => assert MoveOrder[3] == m;
    case DownLeft => assert MoveOrder[4] == m;
    case Left => assert MoveOrder[5] == m;
    case Down => assert MoveOrder[6] == m;
    case UpLeft => assert MoveOrder[7] == m;
  }

  /** The position of the first occurrence of `m` in `ms`. */
  function IndexOf(ms: seq<Move>, m: Move): (k: nat)
    requires m in ms
    ensures k < |ms| && ms[k] == m
  {
    if ms[0] == m then 0 else IndexOf(ms[1..], m) + 1
  }

  /** A node is yielded by `adjacent(node)` exactly when it is an allowed move's target and not an obstacle. */
  lemma AdjacentAreUnblockedTargets(g: MapGrid, node: int, n: int)
    ensures var i, j, res := node % g.resolution, node / g.resolution, g.resolution;
      n in Adjacent(g, node) <==>
        (exists m :: Allowed(m, i, j, res, res) && n == Target(m, i, j, res)) && n !in g.obstacles
  {
    CandidatesAreAllowedTargets(g, node, n);
  }

  /** The nodes of `nodes` that are not obstacles, in order. */
  function Unblocked(nodes: seq<int>, obstacles: set<int>): (r: seq<int>)
    ensures forall n :: n in r <==> n in nodes && n !in obstacles
    ensures |r| <= |nodes|
  {
    if nodes == [] then []
    else (if nodes[0] in obstacles then [] else [nodes[0]]) + Unblocked(nodes[1..], obstacles)
  }

  /** `adjacent(node)`: the candidates of `_adjacent` that are not obstacles, in the same order. */
  function Adjacent(g: MapGrid, node: int): seq<int>
  {
    Unblocked(Candidates(g, node), g.obstacles)
  }

  /** `adjacent` as the `successors` argument of the search. */
  function AdjacentOf(g: MapGrid): int -> seq<int>
  {
    n => Adjacent(g, n)
  }

  /** Filtering commutes with concatenation, so `adjacent` keeps the order of `_adjacent`. */
  lemma {:induction false} UnblockedAppend(a: seq<int>, b: seq<int>, obstacles: set<int>)
    ensures Unblocked(a + b, obstacles) == Unblocked(a, obstacles) + Unblocked(b, obstacles)
    decreases |a|
  {
    if a != [] {
      var first, tail := a[0], a[1..];
      assert a == [first] + tail;
      assert a + b == [first] + (tail + b);
      UnblockedAppend(tail, b, obstacles);
      UnblockedCons(first, tail + b, obstacles);
      UnblockedCons(first, tail, obstacles);
    } else {
      assert a + b == b;
    }
  }

  lemma UnblockedCons(first: int, tail: seq<int>, obstacles: set<int>)
    ensures Unblocked([first] + tail, obstacles) == (if first in obstacles then [] else [first]) + Unblocked(tail, obstacles)
  {
    assert ([first] + tail)[1..] == tail;
  }

  /** With no obstacles `adjacent` yields exactly what `_adjacent` does. */
  lemma {:induction false} NothingBlocked(nodes: seq<int>)
    ensures Unblocked(nodes, {}) == nodes
    decreases |nodes|
  {
    if nodes != [] {
      NothingBlocked(nodes[1..]);
      assert nodes == [nodes[0]] + nodes[1..];
    }
  }

  /** In the first column no candidate moves left. */
  lemma FirstColumnGuards(g: MapGrid, node: int)
    requires node % g.resolution == 0
    ensures Left !in MovesAt(g, node) && UpLeft !in MovesAt(g, node) && DownLeft !in MovesAt(g, node)
  {
  }

  /** In the bottom row no candidate moves down. */
  lemma BottomRowGuards(g: MapGrid, node: int)
    requires node / g.resolution == 0
    ensures Down !in MovesAt(g, node) && DownRight !in MovesAt(g, node) && DownLeft !in MovesAt(g, node)
  {
  }

  /** `DOWN LEFT` yields the same node as `UP RIGHT`. */
  lemma DownLeftIsUpRight(i: int, j: int, res: int)
    ensures Target(DownLeft, i, j, res) == Target(UpRight, i, j, res)
  {
  }

  /**
   * `i = node % resolution` is always below `grid_width`, so the `i < w`
   * guard never holds anything back: `RIGHT` is a candidate of every node.
   */
  lemma RightAlwaysYielded(g: MapGrid, node: int)
    ensures Right in MovesAt(g, node)
    ensures (node % g.resolution + 1) * g.resolution + node / g.resolution in Candidates(g, node)
  {
    var moves := MovesAt(g, node);
    assert Right in MoveOrder;
    var k :| 0 <= k < |moves| && moves[k] == Right;
    assert Candidates(g, node)[k] == (node % g.resolution + 1) * g.resolution + node / g.resolution;
  }

  // ---------------------------------------------------------------------
  // Planning a path
  // ---------------------------------------------------------------------

  lemma MulMonotone(a: int, b: int, c: int)
    requires a <= b && c >= 0
    ensures a * c <= b * c
  {
    assert b * c - a * c == (b - a) * c;
  }

  /** Bounds on the row `node / res` that `_adjacent` reads from a node. */
  lemma RowBounds(n: int, res: int)
    requires res >= 2
    ensures n >= 0 ==> 0 <= n / res && 2 * (n / res) <= n
    ensures n < 0 ==> n <= n / res < 0
  {
    var i, j := n % res, n / res;
    assert n == j * res + i && 0 <= i < res;
    if j >= 0 {
      MulMonotone(2, res, j);
    } else {
      MulMonotone(1, res, -(j + 1));
      assert (j + 1) * res <= j + 1;
    }
  }

  /** The column step and the row step of each move. */
  function ColumnStep(m: Move): int
  {
    match m
    case Right => 1
    case Up => 0
    case UpRight => 1
    case DownRight => 1
    case DownLeft => 1
    case Left => -1
    case Down => 0
    case UpLeft => -1
  }

  function RowStep(m: Move): int
  {
    match m
    case Right => 0
    case Up => 1
    case UpRight => 1
    case DownRight => -1
    case DownLeft => 1
    case Left => 0
    case Down => -1
    case UpLeft => 1
  }

  /**
   * Each target is the cell `(i + ColumnStep(m), j + RowStep(m))` in the
   * encoding `a * res + b`; steps back are guarded by `i > 0` and `j > 0`.
   * `_adjacent` itself reads a node the other way round (see `TargetTransposes`).
   */
  lemma TargetIsShift(m: Move, i: int, j: int, res: int)
    ensures Target(m, i, j, res) == (i + ColumnStep(m)) * res + j + RowStep(m)
    ensures Allowed(m, i, j, res, res) ==> (ColumnStep(m) < 0 ==> i > 0) && (RowStep(m) < 0 ==> j > 0)
    ensures -1 <= ColumnStep(m) <= 1 && -1 <= RowStep(m) <= 1
  {
  }

  /**
   * Read back as `_adjacent` reads a node (`i = node % res`, `j = node / res`),
   * a target whose row index stays in range is the transposed cell
   * `(j + RowStep(m), i + ColumnStep(m))`, not a neighbour of `(i, j)`.
   */
  lemma TargetTransposes(m: Move, i: int, j: int, res: int)
    requires res >= 1 && 0 <= j + RowStep(m) < res
    ensures Target(m, i, j, res) % res == j + RowStep(m)
    ensures Target(m, i, j, res) / res == i + ColumnStep(m)
  {
    TargetIsShift(m, i, j, res);
    DivModOfCell(i + ColumnStep(m), j + RowStep(m), res);
  }

  /** At resolution 10, node 23 (`i = 3`, `j = 2`) has the `RIGHT` candidate 42, read back as `i = 2`, `j = 4`. */
  lemma RightOfTwentyThree()
    ensures var g: MapGrid := Grid(10.0, 10.0, 10, {});
      42 in Candidates(g, 23) && 42 % 10 == 2 && 42 / 10 == 4
  {
    var g: MapGrid := Grid(10.0, 10.0, 10, {});
    assert Allowed(Right, 3, 2, 10, 10) && Target(Right, 3, 2, 10) == 42;
    CandidatesAreAllowedTargets(g, 23, 42);
  }

  /** Each allowed candidate of a node of `[lo, hi]` lies in `[lo, hi]`, once `hi` is large enough. */
  lemma TargetInBox(m: Move, n: int, res: int, lo: int, hi: int)
    requires res >= 2 && lo <= 0 && hi >= 2 * (res * res) + 2 && lo <= n <= hi
    requires Allowed(m, n % res, n / res, res, res)
    ensures lo <= Target(m, n % res, n / res, res) <= hi
  {
    var i, j := n % res, n / res;
    TargetIsShift(m, i, j, res);
    RowBounds(n, res);
    var column := i + ColumnStep(m);
    MulMonotone(0, column, res);
    MulMonotone(column, res, res);
    ShiftInBox(column * res, res * res, n, j, RowStep(m), lo, hi);
  }

  /** The linear part of `TargetInBox`: `x` is the column offset, `square` the node count. */
  lemma ShiftInBox(x: int, square: int, n: int, j: int, step: int, lo: int, hi: int)
    requires 0 <= x <= square && lo <= 0 && hi >= 2 * square + 2 && lo <= n <= hi
    requires n >= 0 ==> 0 <= j && 2 * j <= n
    requires n < 0 ==> n <= j < 0
    requires -1 <= step <= 1 && (step < 0 ==> j > 0)
    ensures lo <= x + j + step <= hi
  {
  }

  /** The integers from `lo` to `hi`. */
  ghost function Box(lo: int, hi: int): (r: set<int>)
    ensures forall n :: n in r <==> lo <= n <= hi
    decreases hi - lo
  {
    if lo > hi then {} else {lo} + Box(lo + 1, hi)
  }

  /**
   * From resolution 2 on, the nodes `adjacent` can reach from `start` stay
   * within `[min(start, 0), max(start, 2 * (res * res) + 2)]`, so the search
   * over them ends.
   */
  lemma AdjacentStaysInBox(g: MapGrid, lo: int, hi: int)
    requires g.resolution >= 2 && lo <= 0 && hi >= 2 * (g.resolution * g.resolution) + 2
    ensures ClosedUnder(AdjacentOf(g), Box(lo, hi))
  {
    forall n, s | n in Box(lo, hi) && s in AdjacentOf(g)(n)
      ensures s in Box(lo, hi)
    {
      var moves := MovesAt(g, n);
      var k :| 0 <= k < |Candidates(g, n)| && Candidates(g, n)[k] == s;
      assert moves[k] in moves;
      TargetInBox(moves[k], n, g.resolution, lo, hi);
    }
  }

  /** `map(coord, nodes)`. */
  function Coords(g: MapGrid, nodes: seq<int>): (r: seq<(real, real)>)
    ensures |r| == |nodes|
  {
    seq(|nodes|, k requires 0 <= k < |nodes| => Coord(g, nodes[k]))
  }

  /**
   * `path(start, goal)`: the search from the node of `start` to the node of
   * `goal` over `adjacent`, with unit `cost` and `distance` as heuristic,
   * and the nodes found turned into points by `coord`. The source reaches
   * these methods through a global grid `m`; here they are the grid's own.
   */
  method Path(g: MapGrid, start: (real, real), goal: (real, real), hypot: (real, real) -> real)
    returns (r: Result<seq<(real, real)>, SearchError>, ghost nodes: seq<int>)
    requires g.resolution >= 2
    ensures var from, to := Node(g, start.0, start.1), Node(g, goal.0, goal.1);
      && (r.Ok? ==> IsPathFrom(AdjacentOf(g), nodes, from, to) && r.value == Coords(g, nodes))
      && (r.Err? <==> !Reachable(AdjacentOf(g), from, to))
      && (from == to ==> r == Ok([Coord(g, from)]))
  {
    var from := Node(g, start.0, start.1);
    var to := Node(g, goal.0, goal.1);
    var res := g.resolution;
    ghost var lo := if from < 0 then from else 0;
    ghost var hi := if from > 2 * (res * res) + 2 then from else 2 * (res * res) + 2;
    AdjacentStaysInBox(g, lo, hi);
    var result;
    ghost var expanded;
    result, expanded := AStar(from, to, AdjacentOf(g), (a, b) => Cost(g, a, b),
                              (a, b) => Distance(g, hypot, a, b), Box(lo, hi));
    match result
    case Ok(found) =>
      nodes := found;
      r := Ok(Coords(g, found));
      assert from == to ==> Coords(g, found) == [Coord(g, from)];
    case Err(e) =>
      nodes := [];
      r := Err(e);
  }
}
