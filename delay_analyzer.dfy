/**
 * The delay estimator of delay_analyzer.cpp. Cells are numbered (the cells
 * where a key gate may go first, in order), each driver-to-cell dependency
 * becomes a timing edge of unit wire delay, the nodes are put in an order
 * where every driver comes before the cells it feeds, and the delay of a
 * locking solution is the latest arrival time along that order. Cells are
 * represented by distinct integers; the dependency pairs are the output of
 * the netlist scan, taken as a parameter.
 */
module DelayAnalysis {
  import opened Sorting

  /** The unit delays the constructor sets. */
  const CellDelay := 1
  const LockDelay := 1
  const WireDelay := 1

  /** An incoming timing edge: the driving node and the wire delay. */
  datatype TimingDependency = TimingDependency(from: int, delay: int)

  /** dependencies_[to]: the incoming edges of node `to`. */
  type DepGraph = seq<seq<TimingDependency>>

  /*
   * Node numbering.
   */

  /** The cells of the dependency pairs in scan order: driver, then cell, pair by pair. */
  function Endpoints(deps: seq<(int, int)>): (ends: seq<int>)
    ensures |ends| == 2 * |deps|
    ensures forall k :: 0 <= k < |deps| ==> ends[2 * k] == deps[k].0 && ends[2 * k + 1] == deps[k].1
  {
    if deps == [] then []
    else Endpoints(deps[..|deps| - 1]) + [deps[|deps| - 1].0, deps[|deps| - 1].1]
  }

  /**
   * A numbering of n nodes: cellOf inverts cellToNode, so the ids are
   * exactly 0..n-1, one per cell.
   */
  ghost predicate Numbering(cellToNode: map<int, nat>, n: nat, cellOf: seq<int>)
  {
    |cellOf| == n
    && (forall c :: c in cellToNode ==> cellToNode[c] < n && cellOf[cellToNode[c]] == c)
    && (forall v :: 0 <= v < n ==> cellOf[v] in cellToNode && cellToNode[cellOf[v]] == v)
  }

  /** The step `if (!cellToNode.count(c)) cellToNode[c] = nodeInd++`. */
  method Assign(cellToNode: map<int, nat>, n: nat, ghost cellOf: seq<int>, c: int)
    returns (cellToNode': map<int, nat>, n': nat, ghost cellOf': seq<int>)
    requires Numbering(cellToNode, n, cellOf)
    ensures Numbering(cellToNode', n', cellOf')
    ensures c in cellToNode ==> cellToNode' == cellToNode && n' == n
    ensures c !in cellToNode ==> cellToNode' == cellToNode[c := n] && n' == n + 1
    ensures cellOf'[..n] == cellOf
  {
    if c in cellToNode {
      return cellToNode, n, cellOf;
    }
    cellToNode', n', cellOf' := cellToNode[c := n], n + 1, cellOf + [c];
  }

  /**
   * The numbering loops of the constructor: the i-th locked cell gets id i
   * (the source asserts they are distinct), then every other cell of the
   * dependency pairs a fresh id, in order of first appearance.
   */
  method NumberNodes(cells: seq<int>, deps: seq<(int, int)>)
    returns (cellToNode: map<int, nat>, nodeInd: nat, ghost cellOf: seq<int>)
    requires Distinct(cells)
    ensures Numbering(cellToNode, nodeInd, cellOf)
    ensures forall i :: 0 <= i < |cells| ==> cells[i] in cellToNode && cellToNode[cells[i]] == i
    ensures forall c :: c in cellToNode <==> c in cells || c in Endpoints(deps)
    ensures forall c :: c in cellToNode && c !in cells ==> cellToNode[c] >= |cells|
    ensures FirstAppearance(cells, Endpoints(deps), 2 * |deps|, cellToNode)
  {
    cellToNode, cellOf := map[], [];
    for i := 0 to |cells|
      invariant Numbering(cellToNode, i, cellOf)
      invariant forall c :: c in cellToNode <==> c in cells[..i]
      invariant forall k :: 0 <= k < i ==> cells[k] in cellToNode && cellToNode[cells[k]] == k
    {
      assert cells[i] !in cells[..i] by {
        assert forall k :: 0 <= k < i ==> cells[k] != cells[i];
      }
      assert cells[..i + 1] == cells[..i] + [cells[i]];
      cellToNode, cellOf := cellToNode[cells[i] := i], cellOf + [cells[i]];
    }
    assert cells[..|cells|] == cells;
    cellToNode, nodeInd, cellOf := NumberDependencyCells(cells, deps, cellToNode, cellOf);
  }

  /** The loop over the dependency pairs: driver then cell, each numbered on first sight. */
  method NumberDependencyCells(cells: seq<int>, deps: seq<(int, int)>, locked: map<int, nat>, ghost lockedOf: seq<int>)
    returns (cellToNode: map<int, nat>, nodeInd: nat, ghost cellOf: seq<int>)
    requires Numbering(locked, |cells|, lockedOf)
    requires forall c :: c in locked <==> c in cells
    ensures Numbering(cellToNode, nodeInd, cellOf)
    ensures forall c :: c in locked ==> c in cellToNode && cellToNode[c] == locked[c]
    ensures forall c :: c in cellToNode <==> c in cells || c in Endpoints(deps)
    ensures forall c :: c in cellToNode && c !in cells ==> cellToNode[c] >= |cells|
    ensures FirstAppearance(cells, Endpoints(deps), 2 * |deps|, cellToNode)
  {
    cellToNode, nodeInd, cellOf := locked, |cells|, lockedOf;
    ghost var ends := Endpoints(deps);
    for k := 0 to |deps|
      invariant NumberedUpTo(cells, ends, 2 * k, locked, cellToNode, nodeInd, cellOf)
    {
      cellToNode, nodeInd, cellOf := NumberEndpoint(cells, ends, 2 * k, locked, cellToNode, nodeInd, cellOf, deps[k].0);
      cellToNode, nodeInd, cellOf := NumberEndpoint(cells, ends, 2 * k + 1, locked, cellToNode, nodeInd, cellOf, deps[k].1);
    }
    assert ends[..2 * |deps|] == ends;
  }

  /** The loop invariant of the dependency scan after its first m endpoints. */
  ghost predicate NumberedUpTo(cells: seq<int>, ends: seq<int>, m: nat, locked: map<int, nat>,
                               cellToNode: map<int, nat>, n: nat, cellOf: seq<int>)
  {
    m <= |ends|
    && Numbering(cellToNode, n, cellOf) && n >= |cells|
    && (forall c :: c in locked ==> c in cellToNode && cellToNode[c] == locked[c])
    && (forall c :: c in cellToNode <==> c in cells || c in ends[..m])
    && (forall c :: c in cellToNode && c !in cells ==> cellToNode[c] >= |cells|)
    && FirstAppearance(cells, ends, m, cellToNode)
  }

  /** Numbers the endpoint c == ends[m] if it has no id yet. */
  method NumberEndpoint(cells: seq<int>, ghost ends: seq<int>, ghost m: nat, ghost locked: map<int, nat>,
                        cellToNode: map<int, nat>, n: nat, ghost cellOf: seq<int>, c: int)
    returns (cellToNode': map<int, nat>, n': nat, ghost cellOf': seq<int>)
    requires m < |ends| && c == ends[m]
    requires NumberedUpTo(cells, ends, m, locked, cellToNode, n, cellOf)
    ensures NumberedUpTo(cells, ends, m + 1, locked, cellToNode', n', cellOf')
  {
    cellToNode', n', cellOf' := Assign(cellToNode, n, cellOf, c);
    FreshKeepsOrder(cells, ends, m, cellToNode, n, cellToNode');
  }

  /** Among the first m endpoints, a first occurrence outside `cells` has a larger id than every earlier endpoint. */
  ghost predicate FirstAppearance(cells: seq<int>, ends: seq<int>, m: nat, cellToNode: map<int, nat>)
    requires m <= |ends|
  {
    forall a, b :: 0 <= a < b < m && ends[b] !in cells && ends[b] !in ends[..b] ==>
      ends[a] in cellToNode && ends[b] in cellToNode && cellToNode[ends[a]] < cellToNode[ends[b]]
  }

  /** Numbering one more endpoint keeps the first-appearance order. */
  lemma FreshKeepsOrder(cells: seq<int>, ends: seq<int>, m: nat, before: map<int, nat>, n: nat, after: map<int, nat>)
    requires m < |ends|
    requires forall c :: c in before <==> c in cells || c in ends[..m]
    requires forall c :: c in before ==> before[c] < n
    requires FirstAppearance(cells, ends, m, before)
    requires ends[m] in before ==> after == before
    requires ends[m] !in before ==> after == before[ends[m] := n]
    ensures FirstAppearance(cells, ends, m + 1, after)
    ensures forall c :: c in after <==> c in cells || c in ends[..m + 1]
  {
    assert ends[..m + 1] == ends[..m] + [ends[m]];
    forall a, b | 0 <= a < b < m + 1 && ends[b] !in cells && ends[b] !in ends[..b]
      ensures ends[a] in after && ends[b] in after && after[ends[a]] < after[ends[b]]
    {
      assert ends[a] in ends[..m];
      if b < m {
        assert ends[b] in ends[..m];
        assert after[ends[a]] == before[ends[a]] && after[ends[b]] == before[ends[b]];
      } else {
        assert b == m && ends[m] !in cells && ends[m] !in ends[..m];
        var e := ends[m];
        assert e in before <==> e in cells || e in ends[..m];
        assert e !in before;
        assert ends[a] != e;
        assert after[ends[a]] == before[ends[a]] < n;
      }
    }
  }

  /*
   * Timing dependencies.
   */

  /** Every endpoint of the dependency pairs has an id below n. */
  ghost predicate EndpointsNumbered(deps: seq<(int, int)>, cellToNode: map<int, nat>, n: nat)
  {
    forall k :: 0 <= k < |deps| ==>
      deps[k].0 in cellToNode && deps[k].1 in cellToNode && cellToNode[deps[k].0] < n && cellToNode[deps[k].1] < n
  }

  /** The incoming edges of node `to`, in the order of the pairs that produce them. */
  function DepsInto(deps: seq<(int, int)>, cellToNode: map<int, nat>, n: nat, to: int): seq<TimingDependency>
    requires EndpointsNumbered(deps, cellToNode, n)
  {
    if deps == [] then []
    else
      var p := deps[|deps| - 1];
      DepsInto(deps[..|deps| - 1], cellToNode, n, to)
        + (if cellToNode[p.1] == to then [TimingDependency(cellToNode[p.0], WireDelay)] else [])
  }

  /** An edge into `to` exists exactly when some pair drives that cell from that node, with the wire delay. */
  lemma {:induction false} DepsIntoEdges(deps: seq<(int, int)>, cellToNode: map<int, nat>, n: nat, to: int, e: TimingDependency)
    requires EndpointsNumbered(deps, cellToNode, n)
    ensures e in DepsInto(deps, cellToNode, n, to) <==>
      e.delay == WireDelay && exists k :: 0 <= k < |deps| && cellToNode[deps[k].0] == e.from && cellToNode[deps[k].1] == to
  {
    if deps != [] {
      var init := deps[..|deps| - 1];
      DepsIntoEdges(init, cellToNode, n, to, e);
      if e in DepsInto(deps, cellToNode, n, to) && e !in DepsInto(init, cellToNode, n, to) {
        assert cellToNode[deps[|deps| - 1].0] == e.from;
      }
      if exists k :: 0 <= k < |deps| && cellToNode[deps[k].0] == e.from && cellToNode[deps[k].1] == to {
        var k :| 0 <= k < |deps| && cellToNode[deps[k].0] == e.from && cellToNode[deps[k].1] == to;
        if k < |deps| - 1 {
          assert init[k] == deps[k];
        }
      }
    }
  }

  /** Every driver of a dependency list is a node id below n. */
  lemma {:induction false} DepsIntoInRange(deps: seq<(int, int)>, cellToNode: map<int, nat>, n: nat, to: int)
    requires EndpointsNumbered(deps, cellToNode, n)
    ensures forall j :: 0 <= j < |DepsInto(deps, cellToNode, n, to)| ==> 0 <= DepsInto(deps, cellToNode, n, to)[j].from < n
  {
    if deps != [] {
      DepsIntoInRange(deps[..|deps| - 1], cellToNode, n, to);
    }
  }

  /** The edge lists have n nodes, and every driver is one of them. */
  ghost predicate InRange(g: DepGraph)
  {
    forall v, k :: 0 <= v < |g| && 0 <= k < |g[v]| ==> 0 <= g[v][k].from < |g|
  }

  /** `dependencies_.resize(nodeInd)` and the loop pushing each pair's edge onto its cell's list. */
  method BuildDependencies(deps: seq<(int, int)>, cellToNode: map<int, nat>, n: nat) returns (g: DepGraph)
    requires EndpointsNumbered(deps, cellToNode, n)
    ensures |g| == n && forall to :: 0 <= to < n ==> g[to] == DepsInto(deps, cellToNode, n, to)
    ensures InRange(g)
  {
    g := seq(n, _ => []);
    for k := 0 to |deps|
      invariant |g| == n
      invariant forall to :: 0 <= to < n ==> g[to] == DepsInto(deps[..k], cellToNode, n, to)
    {
      assert deps[..k + 1][..k] == deps[..k];
      var from, to := cellToNode[deps[k].0], cellToNode[deps[k].1];
      g := g[to := g[to] + [TimingDependency(from, WireDelay)]];
    }
    assert deps[..|deps|] == deps;
    forall v | 0 <= v < n
      ensures forall j :: 0 <= j < |g[v]| ==> 0 <= g[v][j].from < n
    {
      assert g[v] == DepsInto(deps, cellToNode, n, v);
      DepsIntoInRange(deps, cellToNode, n, v);
    }
  }

  /*
   * The topological sort as written: an explicit-stack search that appends
   * a node to `visit` on every pop, then reverses each search's `visit`.
   */

  /** The number of nodes not yet visited. */
  function Unvisited(visited: seq<bool>): (u: nat)
    ensures u <= |visited|
  {
    if visited == [] then 0 else (if visited[0] then 0 else 1) + Unvisited(visited[1..])
  }

  /** Marking an unvisited node leaves one fewer. */
  lemma {:induction false} UnvisitedMark(visited: seq<bool>, v: int)
    requires 0 <= v < |visited| && !visited[v]
    ensures Unvisited(visited[v := true]) == Unvisited(visited) - 1
  {
    if v > 0 {
      assert visited[v := true][1..] == visited[1..][v - 1 := true];
      UnvisitedMark(visited[1..], v - 1);
    } else {
      assert visited[v := true][1..] == visited[1..];
    }
  }

  /** The drivers of `ds` not yet visited, in list order: what the inner loop pushes. */
  function PushUnvisited(ds: seq<TimingDependency>, visited: seq<bool>): (pushed: seq<int>)
    requires forall k :: 0 <= k < |ds| ==> 0 <= ds[k].from < |visited|
    ensures forall j :: 0 <= j < |pushed| ==> 0 <= pushed[j] < |visited| && !visited[pushed[j]]
  {
    if ds == [] then []
    else
      var d := ds[|ds| - 1];
      PushUnvisited(ds[..|ds| - 1], visited) + (if visited[d.from] then [] else [d.from])
  }

  ghost predicate NodesIn(nodes: seq<int>, n: nat)
  {
    forall j :: 0 <= j < |nodes| ==> 0 <= nodes[j] < n
  }

  /** The `while (!stack.empty())` loop run to the end: the final visited flags and `visit`. */
  function StackRun(g: DepGraph, visited: seq<bool>, stack: seq<int>, visit: seq<int>): (seq<bool>, seq<int>)
    requires InRange(g) && |visited| == |g| && NodesIn(stack, |g|)
    decreases Unvisited(visited), |stack|
  {
    if stack == [] then (visited, visit)
    else
      var node := stack[|stack| - 1];
      var rest := stack[..|stack| - 1];
      if visited[node] then StackRun(g, visited, rest, visit + [node])
      else
        UnvisitedMark(visited, node);
        StackRun(g, visited[node := true], rest + PushUnvisited(g[node], visited), visit + [node])
  }

  function Reverse(s: seq<int>): (r: seq<int>)
    ensures |r| == |s| && forall k :: 0 <= k < |s| ==> r[k] == s[|s| - 1 - k]
  {
    if s == [] then [] else [s[|s| - 1]] + Reverse(s[..|s| - 1])
  }

  /** The outer loop from node i on: a search from every node still unvisited. */
  function OuterRun(g: DepGraph, i: nat, visited: seq<bool>, order: seq<int>): seq<int>
    requires InRange(g) && i <= |g| && |visited| == |g|
    decreases |g| - i
  {
    if i == |g| then order
    else if visited[i] then OuterRun(g, i + 1, visited, order)
    else
      var (visited', visit) := StackRun(g, visited, [i], []);
      StackRunKeepsSize(g, visited, [i], []);
      OuterRun(g, i + 1, visited', order + Reverse(visit))
  }

  lemma {:induction false} StackRunKeepsSize(g: DepGraph, visited: seq<bool>, stack: seq<int>, visit: seq<int>)
    requires InRange(g) && |visited| == |g| && NodesIn(stack, |g|)
    ensures |StackRun(g, visited, stack, visit).0| == |g|
    decreases Unvisited(visited), |stack|
  {
    if stack != [] {
      var node := stack[|stack| - 1];
      var rest := stack[..|stack| - 1];
      if visited[node] {
        StackRunKeepsSize(g, visited, rest, visit + [node]);
      } else {
        UnvisitedMark(visited, node);
        StackRunKeepsSize(g, visited[node := true], rest + PushUnvisited(g[node], visited), visit + [node]);
      }
    }
  }

  /** nodeOrder_ as the constructor computes it. */
  function AsWrittenOrder(g: DepGraph): seq<int>
    requires InRange(g)
  {
    OuterRun(g, 0, seq(|g|, _ => false), [])
  }

  /** The constructor's search loops, as written. */
  method SortAsWritten(g: DepGraph) returns (nodeOrder: seq<int>)
    requires InRange(g)
    ensures nodeOrder == AsWrittenOrder(g)
  {
    var visited := seq(|g|, _ => false);
    nodeOrder := [];
    for i := 0 to |g|
      invariant |visited| == |g|
      invariant OuterRun(g, i, visited, nodeOrder) == AsWrittenOrder(g)
    {
      if !visited[i] {
        var visit, final := Search(g, visited, i);
        StackRunKeepsSize(g, visited, [i], []);
        nodeOrder := nodeOrder + Reverse(visit);
        visited := final;
      }
    }
  }

  /** One search: the stack loop from node i. */
  method Search(g: DepGraph, visited0: seq<bool>, i: int) returns (visit: seq<int>, visited: seq<bool>)
    requires InRange(g) && |visited0| == |g| && 0 <= i < |g|
    ensures (visited, visit) == StackRun(g, visited0, [i], [])
  {
    visited, visit := visited0, [];
    var stack := [i];
    while stack != []
      invariant |visited| == |g| && NodesIn(stack, |g|)
      invariant StackRun(g, visited, stack, visit) == StackRun(g, visited0, [i], [])
      decreases Unvisited(visited), |stack|
    {
      var node := stack[|stack| - 1];
      stack := stack[..|stack| - 1];
      if !visited[node] {
        stack := PushDeps(g[node], visited, stack);
        UnvisitedMark(visited, node);
      } else {
        assert visited[node := true] == visited;
      }
      visit := visit + [node];
      visited := visited[node := true];
    }
  }

  /** The inner loop: push the driver of every dependency not yet visited. */
  method PushDeps(ds: seq<TimingDependency>, visited: seq<bool>, stack: seq<int>) returns (stack': seq<int>)
    requires forall k :: 0 <= k < |ds| ==> 0 <= ds[k].from < |visited|
    ensures stack' == stack + PushUnvisited(ds, visited)
  {
    stack' := stack;
    for j := 0 to |ds|
      invariant stack' == stack + PushUnvisited(ds[..j], visited)
    {
      assert ds[..j + 1][..j] == ds[..j];
      if !visited[ds[j].from] {
        stack' := stack' + [ds[j].from];
      }
    }
    assert ds[..|ds|] == ds;
  }

  /** The graph of the first counterexample: node 0 is driven by nodes 1 and 2, and node 1 by node 2. */
  const CrossedDrivers: DepGraph :=
    [[TimingDependency(1, WireDelay), TimingDependency(2, WireDelay)], [TimingDependency(2, WireDelay)], []]

  lemma CrossedDriversInRange()
    ensures InRange(CrossedDrivers)
  {
    var g := CrossedDrivers;
    assert |g| == 3 && |g[0]| == 2 && |g[1]| == 1 && |g[2]| == 0;
  }

  /** One pop of an unvisited node: its unvisited drivers are pushed and it is marked. */
  lemma PopUnvisited(g: DepGraph, visited: seq<bool>, stack: seq<int>, visit: seq<int>,
                     visited': seq<bool>, stack': seq<int>, visit': seq<int>)
    requires InRange(g) && |visited| == |g| && NodesIn(stack, |g|) && stack != []
    requires !visited[stack[|stack| - 1]] && visited' == visited[stack[|stack| - 1] := true]
    requires stack' == stack[..|stack| - 1] + PushUnvisited(g[stack[|stack| - 1]], visited)
    requires visit' == visit + [stack[|stack| - 1]]
    ensures NodesIn(stack', |g|) && |visited'| == |g|
    ensures StackRun(g, visited, stack, visit) == StackRun(g, visited', stack', visit')
  {
  }

  /** Pop node 0: its drivers 1 and 2 are pushed. */
  lemma CrossedDriversPop0()
    ensures InRange(CrossedDrivers)
    ensures StackRun(CrossedDrivers, [false, false, false], [0], [])
      == StackRun(CrossedDrivers, [true, false, false], [1, 2], [0])
  {
    CrossedDriversInRange();
    var g := CrossedDrivers;
    var none := [false, false, false];
    assert PushUnvisited(g[0], none) == [1, 2] by {
      assert g[0][..1] == [g[0][0]];
      assert PushUnvisited(g[0][..1], none) == [1];
    }
    assert none[0 := true] == [true, false, false];
    PopUnvisited(g, none, [0], [], [true, false, false], [1, 2], [0]);
  }

  /** Pop node 2, which has no driver. */
  lemma CrossedDriversPop2()
    ensures InRange(CrossedDrivers)
    ensures StackRun(CrossedDrivers, [true, false, false], [1, 2], [0])
      == StackRun(CrossedDrivers, [true, false, true], [1], [0, 2])
  {
    CrossedDriversInRange();
    var g := CrossedDrivers;
    var s1 := [true, false, false];
    assert PushUnvisited(g[2], s1) == [];
    assert s1[2 := true] == [true, false, true];
    PopUnvisited(g, s1, [1, 2], [0], [true, false, true], [1], [0, 2]);
  }

  /** Pop node 1: its driver 2 is already visited, so the search ends. */
  lemma CrossedDriversPop1()
    ensures InRange(CrossedDrivers)
    ensures StackRun(CrossedDrivers, [true, false, true], [1], [0, 2]) == ([true, true, true], [0, 2, 1])
  {
    CrossedDriversInRange();
    var g := CrossedDrivers;
    var s2 := [true, false, true];
    assert PushUnvisited(g[1], s2) == [] by {
      assert g[1][..0] == [];
    }
    assert s2[1 := true] == [true, true, true];
    PopUnvisited(g, s2, [1], [0, 2], [true, true, true], [], [0, 2, 1]);
  }

  /**
   * Locked cell a with pairs (b, a), (c, a), (c, b) gives CrossedDrivers.
   * The order as written puts node 1 ahead of its driver 2, so the check of
   * line 79 fails.
   */
  lemma DriverAfterCell()
    ensures InRange(CrossedDrivers) && AsWrittenOrder(CrossedDrivers) == [1, 2, 0]
  {
    CrossedDriversInRange();
    var g := CrossedDrivers;
    assert seq(3, _ => false) == [false, false, false];
    CrossedDriversPop0();
    CrossedDriversPop2();
    CrossedDriversPop1();
    assert Reverse([0, 2, 1]) == [1, 2, 0] && [] + [1, 2, 0] == [1, 2, 0];
    calc {
      AsWrittenOrder(g);
      OuterRun(g, 0, [false, false, false], []);
      { StackRunKeepsSize(g, [false, false, false], [0], []); }
      OuterRun(g, 1, [true, true, true], [] + Reverse([0, 2, 1]));
      OuterRun(g, 1, [true, true, true], [1, 2, 0]);
      OuterRun(g, 2, [true, true, true], [1, 2, 0]);
      OuterRun(g, 3, [true, true, true], [1, 2, 0]);
    }
  }

  /** A pop of a node already visited: it is appended to `visit` again. */
  lemma PopVisited(g: DepGraph, visited: seq<bool>, stack: seq<int>, visit: seq<int>, stack': seq<int>, visit': seq<int>)
    requires InRange(g) && |visited| == |g| && NodesIn(stack, |g|) && stack != []
    requires visited[stack[|stack| - 1]]
    requires stack' == stack[..|stack| - 1] && visit' == visit + [stack[|stack| - 1]]
    ensures NodesIn(stack', |g|)
    ensures StackRun(g, visited, stack, visit) == StackRun(g, visited, stack', visit')
  {
  }

  /** The graph of the second counterexample: node 0 is driven by nodes 1 and 2, and node 2 by node 1. */
  const SharedDriver: DepGraph :=
    [[TimingDependency(1, WireDelay), TimingDependency(2, WireDelay)], [], [TimingDependency(1, WireDelay)]]

  lemma SharedDriverInRange()
    ensures InRange(SharedDriver)
  {
    var g := SharedDriver;
    assert |g| == 3 && |g[0]| == 2 && |g[1]| == 0 && |g[2]| == 1;
  }

  /** Pop node 0: its drivers 1 and 2 are pushed. */
  lemma SharedDriverPop0()
    ensures InRange(SharedDriver)
    ensures StackRun(SharedDriver, [false, false, false], [0], [])
      == StackRun(SharedDriver, [true, false, false], [1, 2], [0])
  {
    SharedDriverInRange();
    var g := SharedDriver;
    var none := [false, false, false];
    assert PushUnvisited(g[0], none) == [1, 2] by {
      assert g[0][..1] == [g[0][0]];
      assert PushUnvisited(g[0][..1], none) == [1];
    }
    assert none[0 := true] == [true, false, false];
    PopUnvisited(g, none, [0], [], [true, false, false], [1, 2], [0]);
  }

  /** Pop node 2: its driver 1, still unvisited, is pushed a second time. */
  lemma SharedDriverPop2()
    ensures InRange(SharedDriver)
    ensures StackRun(SharedDriver, [true, false, false], [1, 2], [0])
      == StackRun(SharedDriver, [true, false, true], [1, 1], [0, 2])
  {
    SharedDriverInRange();
    var g := SharedDriver;
    var s1 := [true, false, false];
    assert PushUnvisited(g[2], s1) == [1] by {
      assert g[2][..0] == [];
    }
    assert s1[2 := true] == [true, false, true];
    PopUnvisited(g, s1, [1, 2], [0], [true, false, true], [1, 1], [0, 2]);
  }

  /** Pop node 1, then pop it again: it is appended twice. */
  lemma SharedDriverPop1()
    ensures InRange(SharedDriver)
    ensures StackRun(SharedDriver, [true, false, true], [1, 1], [0, 2]) == ([true, true, true], [0, 2, 1, 1])
  {
    SharedDriverInRange();
    var g := SharedDriver;
    var s2 := [true, false, true];
    assert PushUnvisited(g[1], s2) == [];
    assert s2[1 := true] == [true, true, true];
    PopUnvisited(g, s2, [1, 1], [0, 2], [true, true, true], [1], [0, 2, 1]);
    PopVisited(g, [true, true, true], [1], [0, 2, 1], [], [0, 2, 1, 1]);
  }

  /**
   * Locked cell a with pairs (b, a), (c, a), (b, c) gives SharedDriver. Node
   * 1 is pushed twice and appended twice, so the order as written has four
   * entries for three nodes and the check of line 70 fails.
   */
  lemma RepeatedNode()
    ensures InRange(SharedDriver) && AsWrittenOrder(SharedDriver) == [1, 1, 2, 0]
    ensures |AsWrittenOrder(SharedDriver)| != |SharedDriver|
  {
    SharedDriverInRange();
    var g := SharedDriver;
    assert seq(3, _ => false) == [false, false, false];
    SharedDriverPop0();
    SharedDriverPop2();
    SharedDriverPop1();
    assert Reverse([0, 2, 1, 1]) == [1, 1, 2, 0] && [] + [1, 1, 2, 0] == [1, 1, 2, 0];
    calc {
      AsWrittenOrder(g);
      OuterRun(g, 0, [false, false, false], []);
      { StackRunKeepsSize(g, [false, false, false], [0], []); }
      OuterRun(g, 1, [true, true, true], [] + Reverse([0, 2, 1, 1]));
      OuterRun(g, 1, [true, true, true], [1, 1, 2, 0]);
      OuterRun(g, 2, [true, true, true], [1, 1, 2, 0]);
      OuterRun(g, 3, [true, true, true], [1, 1, 2, 0]);
    }
  }

  /*
   * The check the constructor runs on nodeOrder_ (lines 70-81), and a
   * depth-first sort that passes it.
   */

  /** nodeToOrder: the position of each node in the order, the last one written winning, 0 if absent. */
  function NodeToOrder(order: seq<int>, n: nat): (pos: seq<int>)
    requires NodesIn(order, n)
    ensures |pos| == n
  {
    if order == [] then seq(n, _ => 0)
    else NodeToOrder(order[..|order| - 1], n)[order[|order| - 1] := |order| - 1]
  }

  /** In an order without repeats, nodeToOrder gives back each node's position. */
  lemma {:induction false} NodeToOrderPositions(order: seq<int>, n: nat)
    requires NodesIn(order, n) && Distinct(order)
    ensures forall i :: 0 <= i < |order| ==> NodeToOrder(order, n)[order[i]] == i
  {
    if order != [] {
      var init := order[..|order| - 1];
      NodeToOrderPositions(init, n);
      forall i | 0 <= i < |order| - 1
        ensures NodeToOrder(order, n)[order[i]] == i
      {
        assert init[i] == order[i] != order[|order| - 1];
      }
    }
  }

  /** The asserts of lines 70 and 79: one entry per node, and every driver placed before the node it drives. */
  ghost predicate PassesCheck(g: DepGraph, order: seq<int>)
    requires InRange(g)
  {
    |order| == |g| && NodesIn(order, |g|)
    && forall v, k :: 0 <= v < |g| && 0 <= k < |g[v]| ==> NodeToOrder(order, |g|)[g[v][k].from] < NodeToOrder(order, |g|)[v]
  }

  /** The first counterexample fails the check on its edge from 2 to 1. */
  lemma DriverAfterCellFailsCheck()
    ensures InRange(CrossedDrivers) && !PassesCheck(CrossedDrivers, AsWrittenOrder(CrossedDrivers))
  {
    DriverAfterCell();
    var order := [1, 2, 0];
    assert order[..2][..1] == [1] && order[..2] == [1, 2] && order[..1][..0] == [];
    assert NodeToOrder(order, 3)[2] == 1;
    assert NodeToOrder(order, 3)[1] == 0;
    assert CrossedDrivers[1][0].from == 2;
  }

  /** The second counterexample fails the check on its length. */
  lemma RepeatedNodeFailsCheck()
    ensures InRange(SharedDriver) && !PassesCheck(SharedDriver, AsWrittenOrder(SharedDriver))
  {
    RepeatedNode();
  }

  /** A rank that every edge strictly increases: the dependency graph has no cycle. */
  ghost predicate Ranked(g: DepGraph, rank: seq<nat>)
  {
    |rank| == |g| && InRange(g)
    && forall v, k :: 0 <= v < |g| && 0 <= k < |g[v]| ==> rank[g[v][k].from] < rank[v]
  }

  /** Every driver of a node in the order appears earlier in it. */
  ghost predicate Closed(g: DepGraph, order: seq<int>)
    requires NodesIn(order, |g|)
  {
    forall i, k :: 0 <= i < |order| && 0 <= k < |g[order[i]]| ==> g[order[i]][k].from in order[..i]
  }

  /** The state of the search: placed nodes are distinct, visited and preceded by their drivers. */
  ghost predicate SearchState(g: DepGraph, visited: seq<bool>, order: seq<int>)
  {
    |visited| == |g| && NodesIn(order, |g|) && Distinct(order) && Closed(g, order)
    && forall j :: 0 <= j < |order| ==> visited[order[j]]
  }

  /**
   * Depth-first visit of v: each unvisited driver first, then v itself, so a
   * node is placed only after all its drivers. Nodes visited but not placed
   * are the ones whose visit is in progress, all ranked above v.
   */
  method Visit(g: DepGraph, ghost rank: seq<nat>, v: int, visited: seq<bool>, order: seq<int>)
    returns (visited': seq<bool>, order': seq<int>)
    requires Ranked(g, rank) && SearchState(g, visited, order)
    requires 0 <= v < |g| && !visited[v]
    requires forall u :: 0 <= u < |g| && visited[u] && u !in order ==> rank[u] > rank[v]
    ensures SearchState(g, visited', order')
    ensures v in order' && |order| <= |order'| && order'[..|order|] == order
    ensures forall u :: 0 <= u < |g| ==> (visited'[u] <==> visited[u] || u in order'[|order|..])
    ensures forall j :: |order| <= j < |order'| ==> !visited[order'[j]]
    decreases rank[v], 1
  {
    visited', order' := visited[v := true], order;
    for k := 0 to |g[v]|
      invariant InVisit(g, rank, v, visited, order, k, visited', order')
    {
      visited', order' := VisitDriver(g, rank, v, visited, order, k, visited', order');
    }
    ghost var drivers := order';
    order' := order' + [v];
    assert order'[..|drivers|] == drivers;
  }

  /** The loop invariant of Visit(v) once its first k drivers are handled. */
  ghost predicate InVisit(g: DepGraph, rank: seq<nat>, v: int, visited: seq<bool>, order: seq<int>, k: int,
                          visited': seq<bool>, order': seq<int>)
  {
    Ranked(g, rank) && SearchState(g, visited, order) && 0 <= v < |g| && !visited[v] && 0 <= k <= |g[v]|
    && (forall u :: 0 <= u < |g| && visited[u] && u !in order ==> rank[u] > rank[v])
    && SearchState(g, visited', order') && visited'[v] && v !in order'
    && |order| <= |order'| && order'[..|order|] == order
    && (forall u :: 0 <= u < |g| ==> (visited'[u] <==> visited[u] || u == v || u in order'[|order|..]))
    && (forall j :: |order| <= j < |order'| ==> !visited[order'[j]])
    && (forall j :: 0 <= j < k ==> g[v][j].from in order')
  }

  /** One iteration of Visit's loop: visit the k-th driver of v unless it is visited already. */
  method VisitDriver(g: DepGraph, ghost rank: seq<nat>, v: int, ghost visited: seq<bool>, ghost order: seq<int>, k: int,
                     visited': seq<bool>, order': seq<int>)
    returns (visited'': seq<bool>, order'': seq<int>)
    requires InVisit(g, rank, v, visited, order, k, visited', order') && k < |g[v]|
    ensures InVisit(g, rank, v, visited, order, k + 1, visited'', order'')
    decreases rank[v], 0
  {
    var c := g[v][k].from;
    visited'', order'' := visited', order';
    if !visited'[c] {
      forall u | 0 <= u < |g| && visited'[u] && u !in order'
        ensures rank[u] > rank[c]
      {
        assert u !in order'[|order|..] && u !in order by {
          assert order' == order + order'[|order|..];
        }
      }
      visited'', order'' := Visit(g, rank, c, visited', order');
      assert order''[..|order'|] == order';
      assert order''[..|order|] == order;
    } else {
      assert c in order' by {
        assert rank[c] < rank[v];
      }
    }
  }

  /** The nodes 0..n-1. */
  ghost function Nodes(n: nat): (ns: set<int>)
    ensures forall u :: u in ns <==> 0 <= u < n
    ensures |ns| == n
  {
    if n == 0 then {} else Nodes(n - 1) + {n - 1}
  }

  /** A sequence without repeats has as many elements as its set. */
  lemma {:induction false} DistinctCard(s: seq<int>)
    requires Distinct(s)
    ensures |set x | x in s| == |s|
  {
    if s != [] {
      var init := s[..|s| - 1];
      assert Distinct(init);
      DistinctCard(init);
      assert (set x | x in s) == (set x | x in init) + {s[|s| - 1]};
      assert s[|s| - 1] !in init;
    }
  }

  /** An order that places every node once holds exactly n entries. */
  lemma ExactCover(order: seq<int>, n: nat)
    requires NodesIn(order, n) && Distinct(order) && forall u :: 0 <= u < n ==> u in order
    ensures |order| == n
  {
    DistinctCard(order);
    assert (set x | x in order) == Nodes(n);
  }

  /** An order without repeats that covers every node and places drivers first passes the check. */
  lemma {:induction false} ClosedPassesCheck(g: DepGraph, order: seq<int>)
    requires InRange(g) && NodesIn(order, |g|) && Distinct(order) && Closed(g, order)
    requires forall u :: 0 <= u < |g| ==> u in order
    ensures PassesCheck(g, order)
  {
    ExactCover(order, |g|);
    NodeToOrderPositions(order, |g|);
    forall v, k | 0 <= v < |g| && 0 <= k < |g[v]|
      ensures NodeToOrder(order, |g|)[g[v][k].from] < NodeToOrder(order, |g|)[v]
    {
      assert v in order;
      var i :| 0 <= i < |order| && order[i] == v;
      assert g[v][k].from in order[..i];
      var j :| 0 <= j < i && order[..i][j] == g[v][k].from;
    }
  }

  /**
   * nodeOrder_ as evidently intended: a depth-first search from every
   * unvisited node, each node placed after its drivers. On an acyclic graph
   * it passes the constructor's check.
   */
  method TopologicalSort(g: DepGraph, ghost rank: seq<nat>) returns (order: seq<int>)
    requires Ranked(g, rank)
    ensures Distinct(order) && NodesIn(order, |g|) && Closed(g, order)
    ensures forall u :: 0 <= u < |g| ==> u in order
    ensures PassesCheck(g, order)
  {
    var visited := seq(|g|, _ => false);
    order := [];
    for i := 0 to |g|
      invariant SearchState(g, visited, order)
      invariant forall u :: 0 <= u < |g| ==> (visited[u] <==> u in order)
      invariant forall u :: 0 <= u < i ==> visited[u]
    {
      if !visited[i] {
        ghost var before := order;
        visited, order := Visit(g, rank, i, visited, order);
        assert order == before + order[|before|..];
      }
    }
    ClosedPassesCheck(g, order);
  }

  /*
   * Delay of a locking solution.
   */

  /** additionalDelay: the cell delay, plus the lock delay once per occurrence of the node in the solution. */
  function AdditionalDelay(sol: seq<int>, n: nat): (extra: seq<int>)
    requires NodesIn(sol, n)
    ensures |extra| == n && forall v :: 0 <= v < n ==> extra[v] == CellDelay + LockDelay * multiset(sol)[v]
  {
    if sol == [] then seq(n, _ => CellDelay)
    else
      var init := sol[..|sol| - 1];
      assert sol == init + [sol[|sol| - 1]];
      AdditionalDelay(init, n)[sol[|sol| - 1] := AdditionalDelay(init, n)[sol[|sol| - 1]] + LockDelay]
  }

  /** The latest arrival over the first k incoming edges of v, at least 0. */
  ghost function LatestInput(g: DepGraph, rank: seq<nat>, extra: seq<int>, v: int, k: int): int
    requires Ranked(g, rank) && |extra| == |g| && 0 <= v < |g| && 0 <= k <= |g[v]|
    decreases rank[v], k
  {
    if k == 0 then 0
    else
      var e := g[v][k - 1];
      Max(LatestInput(g, rank, extra, v, k - 1), Arrival(g, rank, extra, e.from) + e.delay)
  }

  /** The arrival time at v: its latest input plus its own delay. */
  ghost function Arrival(g: DepGraph, rank: seq<nat>, extra: seq<int>, v: int): int
    requires Ranked(g, rank) && |extra| == |g| && 0 <= v < |g|
    decreases rank[v], |g[v]| + 1
  {
    LatestInput(g, rank, extra, v, |g[v]|) + extra[v]
  }

  function Max(a: int, b: int): int { if a < b then b else a }

  /** The latest input is the largest of the driver arrivals plus their wire delays, and 0 when there is none. */
  lemma {:induction false} LatestInputIsLatest(g: DepGraph, rank: seq<nat>, extra: seq<int>, v: int, k: int)
    requires Ranked(g, rank) && |extra| == |g| && 0 <= v < |g| && 0 <= k <= |g[v]|
    ensures LatestInput(g, rank, extra, v, k) >= 0
    ensures forall j :: 0 <= j < k ==> LatestInput(g, rank, extra, v, k) >= Arrival(g, rank, extra, g[v][j].from) + g[v][j].delay
    ensures LatestInput(g, rank, extra, v, k) == 0
      || exists j :: 0 <= j < k && LatestInput(g, rank, extra, v, k) == Arrival(g, rank, extra, g[v][j].from) + g[v][j].delay
  {
    if k > 0 {
      LatestInputIsLatest(g, rank, extra, v, k - 1);
    }
  }

  /** More delay on some nodes never makes any arrival earlier. */
  lemma {:induction false} ArrivalMonotone(g: DepGraph, rank: seq<nat>, extra: seq<int>, extra': seq<int>, v: int)
    requires Ranked(g, rank) && |extra| == |g| == |extra'| && 0 <= v < |g|
    requires forall u :: 0 <= u < |g| ==> extra[u] <= extra'[u]
    ensures Arrival(g, rank, extra, v) <= Arrival(g, rank, extra', v)
    decreases rank[v], |g[v]| + 1
  {
    LatestInputMonotone(g, rank, extra, extra', v, |g[v]|);
  }

  lemma {:induction false} LatestInputMonotone(g: DepGraph, rank: seq<nat>, extra: seq<int>, extra': seq<int>, v: int, k: int)
    requires Ranked(g, rank) && |extra| == |g| == |extra'| && 0 <= v < |g| && 0 <= k <= |g[v]|
    requires forall u :: 0 <= u < |g| ==> extra[u] <= extra'[u]
    ensures LatestInput(g, rank, extra, v, k) <= LatestInput(g, rank, extra', v, k)
    decreases rank[v], k
  {
    if k > 0 {
      LatestInputMonotone(g, rank, extra, extra', v, k - 1);
      ArrivalMonotone(g, rank, extra, extra', g[v][k - 1].from);
    }
  }

  /** The largest value of a non-empty sequence: std::max_element. */
  function MaxElement(s: seq<int>): (m: int)
    requires s != []
    ensures m in s && forall j :: 0 <= j < |s| ==> s[j] <= m
  {
    if |s| == 1 then s[0] else Max(MaxElement(s[..|s| - 1]), s[|s| - 1])
  }

  /** The arrival time of every node. */
  ghost function ArrivalTimes(g: DepGraph, rank: seq<nat>, extra: seq<int>): (times: seq<int>)
    requires Ranked(g, rank) && |extra| == |g|
    ensures |times| == |g| && forall v :: 0 <= v < |g| ==> times[v] == Arrival(g, rank, extra, v)
  {
    seq(|g|, v requires 0 <= v < |g| => Arrival(g, rank, extra, v))
  }

  /** The delay of a solution: the latest arrival time over all nodes. */
  ghost function SolutionDelay(g: DepGraph, rank: seq<nat>, sol: seq<int>): (d: int)
    requires Ranked(g, rank) && |g| > 0 && NodesIn(sol, |g|)
    ensures forall v :: 0 <= v < |g| ==> Arrival(g, rank, AdditionalDelay(sol, |g|), v) <= d
    ensures exists v :: 0 <= v < |g| && Arrival(g, rank, AdditionalDelay(sol, |g|), v) == d
  {
    var times := ArrivalTimes(g, rank, AdditionalDelay(sol, |g|));
    var d := MaxElement(times);
    assert exists v :: 0 <= v < |g| && times[v] == d;
    d
  }

  /** Locking more positions (as a multiset) never lowers the delay. */
  lemma MoreLocksNoFaster(g: DepGraph, rank: seq<nat>, sol: seq<int>, sol': seq<int>)
    requires Ranked(g, rank) && |g| > 0 && NodesIn(sol, |g|) && NodesIn(sol', |g|)
    requires multiset(sol) <= multiset(sol')
    ensures SolutionDelay(g, rank, sol) <= SolutionDelay(g, rank, sol')
  {
    var extra, extra' := AdditionalDelay(sol, |g|), AdditionalDelay(sol', |g|);
    forall u | 0 <= u < |g|
      ensures extra[u] <= extra'[u]
    {
      assert multiset(sol)[u] <= multiset(sol')[u];
    }
    var v :| 0 <= v < |g| && Arrival(g, rank, extra, v) == SolutionDelay(g, rank, sol);
    ArrivalMonotone(g, rank, extra, extra', v);
  }

  /** Every node arrives no earlier than its own delay, so a solution's delay is at least the cell delay plus its locks. */
  lemma {:induction false} ArrivalCoversOwnDelay(g: DepGraph, rank: seq<nat>, sol: seq<int>, v: int)
    requires Ranked(g, rank) && NodesIn(sol, |g|) && 0 <= v < |g|
    ensures Arrival(g, rank, AdditionalDelay(sol, |g|), v) >= CellDelay + LockDelay * multiset(sol)[v]
  {
    LatestInputIsLatest(g, rank, AdditionalDelay(sol, |g|), v, |g[v]|);
  }

  /** The inner loop of delay(): the latest input of v, given the arrivals of its drivers. */
  method LatestInputOf(g: DepGraph, ghost rank: seq<nat>, ghost extra: seq<int>, delays: seq<int>, v: int) returns (d: int)
    requires Ranked(g, rank) && |extra| == |g| == |delays| && 0 <= v < |g|
    requires forall j :: 0 <= j < |g[v]| ==> delays[g[v][j].from] == Arrival(g, rank, extra, g[v][j].from)
    ensures d == LatestInput(g, rank, extra, v, |g[v]|)
  {
    d := 0;
    for k := 0 to |g[v]|
      invariant d == LatestInput(g, rank, extra, v, k)
    {
      d := Max(d, delays[g[v][k].from] + g[v][k].delay);
    }
  }

  /** The loop over nodeOrder_ in delay(): each node's arrival from its drivers', computed in order. */
  method Propagate(g: DepGraph, ghost rank: seq<nat>, order: seq<int>, extra: seq<int>) returns (delays: seq<int>)
    requires Ranked(g, rank) && |extra| == |g|
    requires NodesIn(order, |g|) && Distinct(order) && Closed(g, order) && forall u :: 0 <= u < |g| ==> u in order
    ensures delays == ArrivalTimes(g, rank, extra)
  {
    delays := seq(|g|, _ => 0);
    for i := 0 to |order|
      invariant |delays| == |g|
      invariant forall j :: 0 <= j < i ==> delays[order[j]] == Arrival(g, rank, extra, order[j])
    {
      var v := order[i];
      forall j | 0 <= j < |g[v]|
        ensures delays[g[v][j].from] == Arrival(g, rank, extra, g[v][j].from)
      {
        assert g[order[i]][j].from in order[..i];
        var j' :| 0 <= j' < i && order[..i][j'] == g[v][j].from;
        assert order[j'] == g[v][j].from;
      }
      var d := LatestInputOf(g, rank, extra, delays, v);
      delays := delays[v := d + extra[v]];
      assert forall j :: 0 <= j < i ==> order[j] != v;
    }
    forall u | 0 <= u < |g|
      ensures delays[u] == Arrival(g, rank, extra, u)
    {
      assert u in order;
      var j :| 0 <= j < |order| && order[j] == u;
    }
  }

  /** The first loop of delay(): add the lock delay once per entry of the solution. */
  method AddLockDelays(sol: seq<int>, n: nat) returns (extra: seq<int>)
    requires NodesIn(sol, n)
    ensures extra == AdditionalDelay(sol, n)
  {
    extra := seq(n, _ => CellDelay);
    for i := 0 to |sol|
      invariant NodesIn(sol[..i], n) && extra == AdditionalDelay(sol[..i], n)
    {
      assert sol[..i + 1][..i] == sol[..i];
      extra := extra[sol[i] := extra[sol[i]] + LockDelay];
    }
    assert sol[..|sol|] == sol;
  }

  /**
   * When every dependency pair goes from a lower to a higher cell rank, the
   * node ranks taken from their cells increase along every timing edge.
   */
  lemma BuiltRanked(deps: seq<(int, int)>, cellToNode: map<int, nat>, n: nat, cellOf: seq<int>,
                    cellRank: int -> nat, g: DepGraph, rank: seq<nat>)
    requires Numbering(cellToNode, n, cellOf) && EndpointsNumbered(deps, cellToNode, n)
    requires forall k :: 0 <= k < |deps| ==> cellRank(deps[k].0) < cellRank(deps[k].1)
    requires |g| == n && InRange(g) && forall to :: 0 <= to < n ==> g[to] == DepsInto(deps, cellToNode, n, to)
    requires |rank| == n && forall v :: 0 <= v < n ==> rank[v] == cellRank(cellOf[v])
    ensures Ranked(g, rank)
  {
    forall v, j | 0 <= v < n && 0 <= j < |g[v]|
      ensures rank[g[v][j].from] < rank[v]
    {
      var e := g[v][j];
      assert e in DepsInto(deps, cellToNode, n, v);
      DepsIntoEdges(deps, cellToNode, n, v, e);
      var k :| 0 <= k < |deps| && cellToNode[deps[k].0] == e.from && cellToNode[deps[k].1] == v;
      assert cellOf[e.from] == deps[k].0 && cellOf[v] == deps[k].1;
    }
  }

  /**
   * The analyser: timing edges between the insertion positions (the first
   * ones being the cells given to the constructor) and an order of the nodes
   * in which every driver comes first.
   */
  class DelayAnalyzer {
    var nodeOrder: seq<int>
    var dependencies: DepGraph
    /** A rank increasing along every edge, witnessing that the timing graph has no cycle. */
    ghost var rank: seq<nat>
    /** The numbering the constructor builds. */
    ghost var cellToNode: map<int, nat>
    /** The cell of every node id: the inverse of cellToNode. */
    ghost var cellOf: seq<int>

    ghost predicate Valid()
      reads this
    {
      Ranked(dependencies, rank)
      && NodesIn(nodeOrder, |dependencies|) && Distinct(nodeOrder) && Closed(dependencies, nodeOrder)
      && (forall u :: 0 <= u < |dependencies| ==> u in nodeOrder)
      && PassesCheck(dependencies, nodeOrder)
    }

    /** nbNodes(): the number of insertion positions. */
    function NbNodes(): nat
      reads this
    {
      |dependencies|
    }

    /**
     * Numbers the cells (the given ones first), builds one timing edge per
     * dependency pair and sorts the nodes. The pairs are the netlist scan's
     * output; cellRank witnesses that they form no cycle.
     */
    constructor(cells: seq<int>, deps: seq<(int, int)>, ghost cellRank: int -> nat)
      requires Distinct(cells)
      requires forall k :: 0 <= k < |deps| ==> cellRank(deps[k].0) < cellRank(deps[k].1)
      ensures Valid()
      ensures forall i :: 0 <= i < |cells| ==> cells[i] in cellToNode && cellToNode[cells[i]] == i
      ensures forall c :: c in cellToNode <==> c in cells || c in Endpoints(deps)
      ensures Numbering(cellToNode, NbNodes(), cellOf)
      ensures FirstAppearance(cells, Endpoints(deps), 2 * |deps|, cellToNode)
      ensures EndpointsNumbered(deps, cellToNode, NbNodes())
      ensures forall to :: 0 <= to < NbNodes() ==> dependencies[to] == DepsInto(deps, cellToNode, NbNodes(), to)
    {
      var numbering, nodeInd, ids := NumberNodes(cells, deps);
      forall k | 0 <= k < |deps|
        ensures deps[k].0 in numbering && deps[k].1 in numbering
      {
        assert Endpoints(deps)[2 * k] == deps[k].0 && Endpoints(deps)[2 * k + 1] == deps[k].1;
      }
      var g := BuildDependencies(deps, numbering, nodeInd);
      ghost var ranks := seq(nodeInd, v requires 0 <= v < nodeInd => cellRank(ids[v]));
      BuiltRanked(deps, numbering, nodeInd, ids, cellRank, g, ranks);
      var order := TopologicalSort(g, ranks);
      nodeOrder, dependencies, rank, cellToNode, cellOf := order, g, ranks, numbering, ids;
    }

    /**
     * delay(sol): the latest arrival time when a key gate sits on each node
     * of the solution (a node listed twice carries two).
     */
    method Delay(sol: seq<int>) returns (d: int)
      requires Valid() && NbNodes() > 0 && NodesIn(sol, NbNodes())
      ensures d == SolutionDelay(dependencies, rank, sol)
    {
      var extra := AddLockDelays(sol, |dependencies|);
      var delays := Propagate(dependencies, rank, nodeOrder, extra);
      d := MaxElement(delays);
    }
  }
}
