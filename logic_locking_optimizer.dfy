/**
 * The pairwise-interference optimiser. Node i's list holds the nodes whose
 * key gates interfere with node i; locking a clique of mutually interfering
 * nodes gives the attacker no way to resolve their keys one at a time. The
 * constructor normalises the lists, then cliques are enumerated (Bron-
 * Kerbosch) and packed greedily, largest first.
 */
module CliqueOptimizer {
  import opened Common
  import opened Sorting

  /** Adjacency lists: g[i] lists the neighbours of node i. */
  type Graph = seq<seq<int>>

  /*
   * Well-formedness, as check() tests it.
   */

  predicate Increasing(v: seq<int>)
  {
    forall a, b :: 0 <= a < b < |v| ==> v[a] < v[b]
  }

  /** Every entry names a node of the graph. */
  predicate InBounds(g: Graph)
  {
    forall i, k :: 0 <= i < |g| && 0 <= k < |g[i]| ==> 0 <= g[i][k] < |g|
  }

  predicate ListsIncreasing(g: Graph)
  {
    forall i :: 0 <= i < |g| ==> Increasing(g[i])
  }

  predicate NoSelfLoops(g: Graph)
  {
    forall i :: 0 <= i < |g| ==> i !in g[i]
  }

  /** Every edge is listed in both directions. */
  predicate Symmetric(g: Graph)
    requires InBounds(g)
  {
    forall i, k :: 0 <= i < |g| && 0 <= k < |g[i]| ==> i in g[g[i][k]]
  }

  predicate WellFormed(g: Graph)
  {
    InBounds(g) && ListsIncreasing(g) && NoSelfLoops(g) && Symmetric(g)
  }

  /*
   * List helpers.
   */

  /** v with its first occurrence of x erased (std::find then erase). */
  function EraseFirst(v: seq<int>, x: int): (r: seq<int>)
    ensures x in v ==> |r| == |v| - 1
    ensures x !in v ==> r == v
    ensures forall y :: y in r ==> y in v
  {
    if v == [] then []
    else if v[0] == x then v[1..]
    else [v[0]] + EraseFirst(v[1..], x)
  }

  /** Erasing the first occurrence, at position k, removes just that position. */
  lemma {:induction false} EraseFirstAt(v: seq<int>, x: int, k: nat)
    requires k < |v| && v[k] == x && x !in v[..k]
    ensures EraseFirst(v, x) == v[..k] + v[k + 1..]
  {
    if k > 0 {
      assert v[1..][..k - 1] == v[..k][1..];
      EraseFirstAt(v[1..], x, k - 1);
      assert v[1..][k..] == v[k + 1..];
      assert v[..k] == [v[0]] + v[1..][..k - 1];
    }
  }

  /** Dropping position k of an increasing list keeps it increasing. */
  lemma DropIncreasing(v: seq<int>, k: nat)
    requires k < |v| && Increasing(v)
    ensures Increasing(v[..k] + v[k + 1..])
  {
    var r := v[..k] + v[k + 1..];
    forall a, b | 0 <= a < b < |r|
      ensures r[a] < r[b]
    {
      var a', b' := if a < k then a else a + 1, if b < k then b else b + 1;
      assert r[a] == v[a'] && r[b] == v[b'];
    }
  }

  /** Dropping position k of an increasing list removes exactly the value v[k]. */
  lemma DropMembers(v: seq<int>, k: nat)
    requires k < |v| && Increasing(v)
    ensures forall y :: y in v[..k] + v[k + 1..] <==> y in v && y != v[k]
  {
    var r := v[..k] + v[k + 1..];
    forall y
      ensures y in r <==> y in v && y != v[k]
    {
      if y in v && y != v[k] {
        var j :| 0 <= j < |v| && v[j] == y;
        assert r[if j < k then j else j - 1] == y;
      }
      if y in r {
        var i :| 0 <= i < |r| && r[i] == y;
        var j := if i < k then i else i + 1;
        assert v[j] == y && j != k;
      }
    }
  }

  /** In an increasing list, erasing x removes exactly x and keeps the order. */
  lemma EraseFirstIncreasing(v: seq<int>, x: int)
    requires Increasing(v)
    ensures Increasing(EraseFirst(v, x))
    ensures forall y :: y in EraseFirst(v, x) <==> y in v && y != x
  {
    if x in v {
      var k :| 0 <= k < |v| && v[k] == x;
      assert x !in v[..k] by {
        assert forall a :: 0 <= a < k ==> v[a] < v[k];
      }
      EraseFirstAt(v, x, k);
      DropIncreasing(v, k);
      DropMembers(v, k);
    }
  }

  /** std::unique on a non-decreasing list: the repeated values collapse. */
  method Uniquify(v: seq<int>) returns (r: seq<int>)
    requires SortedBy(v, IntLess)
    ensures Increasing(r)
    ensures forall x :: x in r <==> x in v
  {
    r := [];
    for i := 0 to |v|
      invariant Increasing(r)
      invariant forall x :: x in r <==> x in v[..i]
      invariant (i == 0) == (r == [])
      invariant i > 0 ==> r[|r| - 1] == v[i - 1]
    {
      assert v[..i + 1] == v[..i] + [v[i]];
      if r == [] || r[|r| - 1] != v[i] {
        if r != [] {
          assert !IntLess(v[i], v[i - 1]);
        }
        r := r + [v[i]];
      }
    }
    assert v[..|v|] == v;
  }

  /*
   * The construction passes, each over the whole graph.
   */

  /** sortNeighbours: every list sorted and free of repetitions, with the same members. */
  method SortNeighbours(g: Graph) returns (r: Graph)
    ensures |r| == |g| && ListsIncreasing(r)
    ensures forall i, x :: 0 <= i < |g| ==> (x in r[i] <==> x in g[i])
  {
    NumberOrders();
    r := g;
    for i := 0 to |g|
      invariant |r| == |g| && forall p :: 0 <= p < i ==> Increasing(r[p])
      invariant forall p, x :: 0 <= p < |g| ==> (x in r[p] <==> x in g[p])
    {
      var sorted := SortBy(g[i], IntLess);
      assert forall x :: x in sorted <==> x in multiset(g[i]);
      var u := Uniquify(sorted);
      r := r[i := u];
    }
  }

  /** removeSelfLoops: node i is erased from its own list. */
  method RemoveSelfLoops(g: Graph) returns (r: Graph)
    requires ListsIncreasing(g)
    ensures |r| == |g| && ListsIncreasing(r) && NoSelfLoops(r)
    ensures forall i, x :: 0 <= i < |g| ==> (x in r[i] <==> x in g[i] && x != i)
  {
    r := g;
    for i := 0 to |g|
      invariant |r| == |g| && ListsIncreasing(r)
      invariant forall p :: 0 <= p < i ==> p !in r[p]
      invariant forall p, x :: 0 <= p < i ==> (x in r[p] <==> x in g[p] && x != p)
      invariant forall p :: i <= p < |g| ==> r[p] == g[p]
    {
      EraseFirstIncreasing(g[i], i);
      r := r[i := EraseFirst(g[i], i)];
    }
  }

  /**
   * The binary search hasEdge runs (std::binary_search) over v[lo..hi]. On
   * any list a success names a member; on a sorted list it is exact
   * (SearchExact).
   */
  function Search(v: seq<int>, x: int, lo: nat, hi: nat): (found: bool)
    requires lo <= hi <= |v|
    ensures found ==> x in v
    decreases hi - lo
  {
    if lo == hi then false
    else
      var mid := (lo + hi) / 2;
      if v[mid] < x then Search(v, x, mid + 1, hi)
      else if x < v[mid] then Search(v, x, lo, mid)
      else true
  }

  lemma {:induction false} SearchFinds(v: seq<int>, x: int, lo: nat, hi: nat)
    requires lo <= hi <= |v| && Increasing(v) && x in v
    requires forall k :: 0 <= k < lo ==> v[k] < x
    requires forall k :: hi <= k < |v| ==> x < v[k]
    ensures Search(v, x, lo, hi)
    decreases hi - lo
  {
    var k :| 0 <= k < |v| && v[k] == x;
    if lo < hi {
      var mid := (lo + hi) / 2;
      if v[mid] < x {
        SearchFinds(v, x, mid + 1, hi);
      } else if x < v[mid] {
        SearchFinds(v, x, lo, mid);
      }
    }
  }

  lemma SearchExact(v: seq<int>, x: int)
    requires Increasing(v)
    ensures Search(v, x, 0, |v|) <==> x in v
  {
    if x in v {
      SearchFinds(v, x, 0, |v|);
    }
  }

  /** std::binary_search over the whole list. */
  method BinarySearch(v: seq<int>, x: int) returns (b: bool)
    ensures b == Search(v, x, 0, |v|)
    ensures Increasing(v) ==> (b <==> x in v)
  {
    if Increasing(v) {
      SearchExact(v, x);
    }
    var lo, hi := 0, |v|;
    while lo < hi
      invariant 0 <= lo <= hi <= |v|
      invariant Search(v, x, lo, hi) == Search(v, x, 0, |v|)
      decreases hi - lo
    {
      var mid := (lo + hi) / 2;
      if v[mid] < x {
        lo := mid + 1;
      } else if v[mid] > x {
        hi := mid;
      } else {
        return true;
      }
    }
    return false;
  }

  /** hasEdge(from, to): the binary search for `to` in the list of `from`; both must be nodes. */
  method HasEdge(g: Graph, from: int, to: int) returns (b: bool)
    requires 0 <= from < |g| && 0 <= to < |g|
    ensures b == Search(g[from], to, 0, |g[from]|)
    ensures Increasing(g[from]) ==> (b <==> to in g[from])
  {
    b := BinarySearch(g[from], to);
  }

  /** The members of v that list node i back. */
  function Mutual(g: Graph, v: seq<int>, i: int): (r: seq<int>)
    requires forall k :: 0 <= k < |v| ==> 0 <= v[k] < |g|
    ensures forall x :: x in r <==> x in v && i in g[x]
  {
    if v == [] then []
    else Mutual(g, v[..|v| - 1], i) + (if i in g[v[|v| - 1]] then [v[|v| - 1]] else [])
  }

  lemma {:induction false} MutualIncreasing(g: Graph, v: seq<int>, i: int)
    requires forall k :: 0 <= k < |v| ==> 0 <= v[k] < |g|
    requires Increasing(v)
    ensures Increasing(Mutual(g, v, i))
  {
    if v != [] {
      var front := v[..|v| - 1];
      MutualIncreasing(g, front, i);
      var m := Mutual(g, front, i);
      forall a | 0 <= a < |m|
        ensures m[a] < v[|v| - 1]
      {
        assert m[a] in m;
        var k :| 0 <= k < |front| && front[k] == m[a];
        assert v[k] < v[|v| - 1];
      }
    }
  }

  /**
   * The filtering loop of removeDirectedEdges for node i, asking hasEdge of
   * the graph as it stands.
   */
  method FilterMutual(g: Graph, i: nat) returns (filtered: seq<int>)
    requires i < |g| && InBounds(g) && ListsIncreasing(g)
    ensures filtered == Mutual(g, g[i], i)
  {
    var v := g[i];
    filtered := [];
    for t := 0 to |v|
      invariant filtered == Mutual(g, v[..t], i)
    {
      assert v[..t + 1][..t] == v[..t];
      var keep := HasEdge(g, v[t], i);
      if keep {
        filtered := filtered + [v[t]];
      }
    }
    assert v[..|v|] == v;
  }

  /**
   * removeDirectedEdges: an edge stays only if it is listed both ways. The
   * loop reads lists it has already filtered, which gives the same answer as
   * the original graph.
   */
  method RemoveDirectedEdges(g: Graph) returns (r: Graph)
    requires InBounds(g) && ListsIncreasing(g)
    ensures |r| == |g| && InBounds(r) && ListsIncreasing(r) && Symmetric(r)
    ensures forall i, x :: 0 <= i < |g| ==> (x in r[i] <==> x in g[i] && i in g[x])
  {
    r := g;
    for i := 0 to |g|
      invariant |r| == |g| && InBounds(r) && ListsIncreasing(r)
      invariant forall p, x :: 0 <= p < i ==> (x in r[p] <==> x in g[p] && p in g[x])
      invariant forall p :: i <= p < |g| ==> r[p] == g[p]
    {
      var filtered := FilterMutual(r, i);
      MutualIncreasing(r, r[i], i);
      forall k | 0 <= k < |filtered|
        ensures 0 <= filtered[k] < |g|
      {
        assert filtered[k] in filtered;
        var t :| 0 <= t < |r[i]| && r[i][t] == filtered[k];
      }
      forall x | x in g[i]
        ensures i in r[x] <==> i in g[x]
      {
      }
      r := r[i := filtered];
    }
    SymmetricFromMutual(g, r);
  }

  lemma SymmetricFromMutual(g: Graph, r: Graph)
    requires |r| == |g| && InBounds(g) && InBounds(r)
    requires forall i, x :: 0 <= i < |g| ==> (x in r[i] <==> x in g[i] && i in g[x])
    ensures Symmetric(r)
  {
    forall i, k | 0 <= i < |r| && 0 <= k < |r[i]|
      ensures i in r[r[i][k]]
    {
      var x := r[i][k];
      assert x in r[i];
      assert x in g[i] && i in g[x];
      assert 0 <= x < |g|;
      assert i in r[x];
    }
  }

  /** Every edge of r is an edge of g. */
  predicate EdgesWithin(r: Graph, g: Graph)
  {
    |r| == |g| && forall p, x :: 0 <= p < |r| && x in r[p] ==> x in g[p]
  }

  /** g with node j cut out: j is erased from every other list and its own list is cleared. */
  function Isolate(g: Graph, j: nat): (r: Graph)
    requires j < |g|
    ensures |r| == |g| && r[j] == []
    ensures forall p :: 0 <= p < |g| && p != j ==> r[p] == EraseFirst(g[p], j)
  {
    seq(|g|, p requires 0 <= p < |g| => if p == j then [] else EraseFirst(g[p], j))
  }

  /** Cutting a node out of a well-formed graph keeps it well formed and removes exactly the edges at j. */
  lemma IsolateShape(g: Graph, j: nat)
    requires WellFormed(g) && j < |g|
    ensures WellFormed(Isolate(g, j))
    ensures forall p, x :: 0 <= p < |g| && p != j ==> (x in Isolate(g, j)[p] <==> x in g[p] && x != j)
  {
    var r := Isolate(g, j);
    forall p | 0 <= p < |g| && p != j
      ensures Increasing(r[p]) && forall x :: x in r[p] <==> x in g[p] && x != j
    {
      EraseFirstIncreasing(g[p], j);
    }
    InBoundsByMembers(g, r);
    forall p, k | 0 <= p < |r| && 0 <= k < |r[p]|
      ensures p in r[r[p][k]]
    {
      var x := r[p][k];
      assert x in r[p];
      assert p in g[x];
    }
  }

  /**
   * The inner block of removeExclusiveEquivalentNodes for nodes i < j with
   * equal lists: j is erased from every neighbour's list, then its own list
   * is cleared. The three asserts of the source hold: no neighbour is i or
   * j, and each neighbour lists j.
   */
  method Detach(g: Graph, i: nat, j: nat) returns (r: Graph)
    requires WellFormed(g) && i < j < |g| && g[j] == g[i]
    ensures r == Isolate(g, j)
    ensures WellFormed(r) && EdgesWithin(r, g)
    ensures forall p, x :: 0 <= p < |g| && p != j ==> (x in r[p] <==> x in g[p] && x != j)
  {
    var nbrs := g[j];
    r := g;
    for t := 0 to |nbrs|
      invariant ErasedUpTo(g, j, t, r)
    {
      var k := nbrs[t];
      NeighbourFacts(g, i, j, t);
      ErasedStep(g, j, t, r);
      assert k != i && k != j && j in r[k];
      r := r[k := EraseFirst(r[k], j)];
    }
    assert nbrs[..|nbrs|] == nbrs;
    DetachDone(g, j, r);
    r := r[j := []];
    IsolateShape(g, j);
  }

  /** Detach's loop after t neighbours of j: those have had j erased, every other list is g's. */
  ghost predicate ErasedUpTo(g: Graph, j: nat, t: nat, r: Graph)
    requires j < |g| && t <= |g[j]|
  {
    && |r| == |g| && r[j] == g[j]
    && forall p :: 0 <= p < |g| && p != j ==> r[p] == if p in g[j][..t] then EraseFirst(g[p], j) else g[p]
  }

  /** Neighbour t of j in Detach's loop: the source's three asserts hold, and it was not visited before. */
  lemma NeighbourFacts(g: Graph, i: nat, j: nat, t: nat)
    requires WellFormed(g) && i < j < |g| && g[j] == g[i] && t < |g[j]|
    ensures var k := g[j][t]; 0 <= k < |g| && k != i && k != j && j in g[k] && k !in g[j][..t]
  {
    var nbrs := g[j];
    var k := nbrs[t];
    assert 0 <= k < |g| && k != j by {
      assert j !in g[j];
    }
    assert k != i by {
      assert i !in g[i];
    }
    assert j in g[k];
    assert k !in nbrs[..t] by {
      assert forall a :: 0 <= a < t ==> nbrs[a] < nbrs[t];
    }
  }

  /** One step of Detach's loop: erasing j from neighbour t's list. */
  lemma ErasedStep(g: Graph, j: nat, t: nat, r: Graph)
    requires j < |g| && t < |g[j]| && ErasedUpTo(g, j, t, r)
    requires var k := g[j][t]; 0 <= k < |g| && k != j && k !in g[j][..t]
    ensures var k := g[j][t]; r[k] == g[k]
    ensures var k := g[j][t]; ErasedUpTo(g, j, t + 1, r[k := EraseFirst(r[k], j)])
  {
    var nbrs := g[j];
    var k := nbrs[t];
    var r' := r[k := EraseFirst(r[k], j)];
    TakeNext(nbrs, t);
    forall p | 0 <= p < |g| && p != j
      ensures r'[p] == if p in nbrs[..t + 1] then EraseFirst(g[p], j) else g[p]
    {
      assert p in nbrs[..t + 1] <==> p in nbrs[..t] || p == k;
    }
  }

  lemma TakeNext(s: seq<int>, t: nat)
    requires t < |s|
    ensures s[..t + 1] == s[..t] + [s[t]]
  {
  }

  /** Once every neighbour of j has had j erased, clearing j's own list cuts j out. */
  lemma DetachDone(g: Graph, j: nat, r: Graph)
    requires WellFormed(g) && j < |g| && |r| == |g|
    requires forall p :: 0 <= p < |g| && p != j ==> r[p] == if p in g[j] then EraseFirst(g[p], j) else g[p]
    ensures r[j := []] == Isolate(g, j)
  {
    forall p | 0 <= p < |g| && p != j && j in g[p]
      ensures p in g[j]
    {
      var k :| 0 <= k < |g[p]| && g[p][k] == j;
    }
  }

  /**
   * The pass of removeExclusiveEquivalentNodes from pair (i, j) on: the
   * pairs are visited row by row, i < j, and node j is cut out whenever
   * its list equals node i's list at that moment.
   */
  function Pass(g: Graph, i: nat, j: nat): (r: Graph)
    ensures |r| == |g|
    decreases |g| - i, |g| - j
  {
    if i >= |g| then g
    else if j >= |g| then Pass(g, i + 1, i + 2)
    else Pass(if g[j] == g[i] then Isolate(g, j) else g, i, j + 1)
  }

  /** The nodes the pass from (i, j) on cuts out. */
  function Isolated(g: Graph, i: nat, j: nat): set<int>
    decreases |g| - i, |g| - j
  {
    if i >= |g| then {}
    else if j >= |g| then Isolated(g, i + 1, i + 2)
    else if g[j] == g[i] then {j} + Isolated(Isolate(g, j), i, j + 1)
    else Isolated(g, i, j + 1)
  }

  /**
   * r is g with the nodes of D cut out: a well-formed graph in which every
   * node of D has an empty list and every other node keeps exactly its
   * edges to nodes outside D.
   */
  ghost predicate CutOut(g: Graph, r: Graph, D: set<int>)
  {
    WellFormed(r) && |r| == |g|
    && (forall d :: d in D ==> 0 <= d < |g| && r[d] == [])
    && (forall p, x :: 0 <= p < |g| && p !in D ==> (x in r[p] <==> x in g[p] && x !in D))
  }

  /** What the pass keeps: the graph with the nodes it isolated cut out. */
  lemma {:induction false} PassEdges(g: Graph, i: nat, j: nat)
    requires WellFormed(g)
    ensures CutOut(g, Pass(g, i, j), Isolated(g, i, j))
    decreases |g| - i, |g| - j
  {
    if i >= |g| {
    } else if j >= |g| {
      PassEdges(g, i + 1, i + 2);
      PassMoves(g, i, j, i + 1, i + 2);
    } else if g[j] == g[i] {
      IsolateShape(g, j);
      PassEdges(Isolate(g, j), i, j + 1);
      PassIsolates(g, i, j);
    } else {
      PassEdges(g, i, j + 1);
      PassMoves(g, i, j, i, j + 1);
    }
  }

  /** A step of PassEdges that isolates nothing: the pass from (i, j) is the pass from (i2, j2). */
  lemma PassMoves(g: Graph, i: nat, j: nat, i2: nat, j2: nat)
    requires Pass(g, i, j) == Pass(g, i2, j2) && Isolated(g, i, j) == Isolated(g, i2, j2)
    requires CutOut(g, Pass(g, i2, j2), Isolated(g, i2, j2))
    ensures CutOut(g, Pass(g, i, j), Isolated(g, i, j))
  {
  }

  /** The step of PassEdges where node j's list equals node i's: j is cut out, then the pass goes on. */
  lemma PassIsolates(g: Graph, i: nat, j: nat)
    requires WellFormed(g) && i < |g| && j < |g| && g[j] == g[i]
    requires CutOut(Isolate(g, j), Pass(Isolate(g, j), i, j + 1), Isolated(Isolate(g, j), i, j + 1))
    ensures CutOut(g, Pass(g, i, j), Isolated(g, i, j))
  {
    var g' := Isolate(g, j);
    CutOutAfterIsolate(g, j, Pass(g', i, j + 1), Isolated(g', i, j + 1));
    assert Pass(g, i, j) == Pass(g', i, j + 1);
    assert Isolated(g, i, j) == {j} + Isolated(g', i, j + 1);
  }

  /** A list with no members is empty. */
  lemma NoMembers(v: seq<int>)
    requires forall x :: x !in v
    ensures v == []
  {
    var x := if v == [] then 0 else v[0];
    assert v == [] || x in v;
  }

  /** Cutting out j and then D cuts out j and D. */
  lemma CutOutAfterIsolate(g: Graph, j: nat, r: Graph, D: set<int>)
    requires WellFormed(g) && j < |g|
    requires CutOut(Isolate(g, j), r, D)
    ensures CutOut(g, r, {j} + D)
  {
    var g' := Isolate(g, j);
    IsolateShape(g, j);
    if j !in D {
      NoMembers(r[j]);
    }
    forall p, x | 0 <= p < |g| && p !in {j} + D
      ensures x in r[p] <==> x in g[p] && x !in {j} + D
    {
      assert x in r[p] <==> x in g'[p] && x !in D;
      assert x in g'[p] <==> x in g[p] && x != j;
    }
  }

  /** A graph whose lists are pairwise different goes through the pass unchanged. */
  lemma {:induction false} DistinctListsKept(g: Graph, i: nat, j: nat)
    requires forall a, b :: 0 <= a < b < |g| ==> g[a] != g[b]
    requires i < j || i >= |g|
    ensures Pass(g, i, j) == g && Isolated(g, i, j) == {}
    decreases |g| - i, |g| - j
  {
    if i >= |g| {
    } else if j >= |g| {
      DistinctListsKept(g, i + 1, i + 2);
    } else {
      DistinctListsKept(g, i, j + 1);
    }
  }

  /**
   * removeExclusiveEquivalentNodes: for i < j whose lists are equal at that
   * moment (so i and j are not adjacent), node j is isolated.
   */
  method RemoveEquivalentNodes(g: Graph) returns (r: Graph)
    requires WellFormed(g)
    ensures r == Pass(g, 0, 1)
    ensures WellFormed(r) && EdgesWithin(r, g)
    ensures CutOut(g, r, Isolated(g, 0, 1))
  {
    r := g;
    for i := 0 to |g|
      invariant |r| == |g| && WellFormed(r)
      invariant Pass(r, i, i + 1) == Pass(g, 0, 1)
    {
      r := EquivalentRow(r, i);
    }
    PassEdges(g, 0, 1);
    CutOutWithin(g, r, Isolated(g, 0, 1));
  }

  /** Row i of removeExclusiveEquivalentNodes: node i against every later node. */
  method EquivalentRow(g: Graph, i: nat) returns (r: Graph)
    requires WellFormed(g) && i < |g|
    ensures |r| == |g| && WellFormed(r)
    ensures Pass(r, i + 1, i + 2) == Pass(g, i, i + 1)
  {
    r := g;
    for j := i + 1 to |g|
      invariant |r| == |g| && WellFormed(r)
      invariant Pass(r, i, j) == Pass(g, i, i + 1)
    {
      ghost var before := r;
      if r[j] == r[i] {
        r := Detach(r, i, j);
      }
      PassVisit(before, i, j, r);
    }
    PassRow(r, i);
  }

  /** A graph cut out of g only keeps edges of g. */
  lemma CutOutWithin(g: Graph, r: Graph, D: set<int>)
    requires CutOut(g, r, D)
    ensures EdgesWithin(r, g)
  {
  }

  /** Visiting pair (i, j) leaves the rest of the pass to do from (i, j + 1). */
  lemma PassVisit(g: Graph, i: nat, j: nat, r: Graph)
    requires i < |g| && j < |g|
    requires r == if g[j] == g[i] then Isolate(g, j) else g
    ensures Pass(r, i, j + 1) == Pass(g, i, j)
  {
  }

  /** At the end of row i the pass moves on to row i + 1. */
  lemma PassRow(g: Graph, i: nat)
    requires i < |g|
    ensures Pass(g, i, |g|) == Pass(g, i + 1, i + 2)
  {
  }

  /** A graph whose lists only hold members of another in-range graph's lists is in range. */
  lemma InBoundsByMembers(g: Graph, r: Graph)
    requires InBounds(g) && |r| == |g|
    requires forall i, x :: 0 <= i < |g| && x in r[i] ==> x in g[i]
    ensures InBounds(r)
  {
    forall i, k | 0 <= i < |r| && 0 <= k < |r[i]|
      ensures 0 <= r[i][k] < |r|
    {
      assert r[i][k] in r[i];
    }
  }

  /** The nodes x below k, in increasing order, with x != i, i listing x and x listing i. */
  function MutualBelow(g: Graph, i: nat, k: nat): (r: seq<int>)
    requires InBounds(g) && i < |g| && k <= |g|
    ensures Increasing(r)
    ensures forall x :: x in r ==> 0 <= x < k
    ensures forall x :: x in r <==> 0 <= x < k && x != i && x in g[i] && i in g[x]
  {
    if k == 0 then []
    else
      var rest := MutualBelow(g, i, k - 1);
      var x := k - 1;
      if x != i && x in g[i] && i in g[x] then
        assert forall a :: 0 <= a < |rest| ==> rest[a] in rest;
        rest + [x]
      else rest
  }

  /**
   * The graph the first three cleanup passes (sortNeighbours,
   * removeSelfLoops, removeDirectedEdges) leave: node i lists, in increasing
   * order, exactly the other nodes it lists and that list it back.
   */
  function Normalised(g: Graph): (r: Graph)
    requires InBounds(g)
    ensures |r| == |g|
    ensures forall i :: 0 <= i < |g| ==> r[i] == MutualBelow(g, i, |g|)
  {
    seq(|g|, i requires 0 <= i < |g| => MutualBelow(g, i, |g|))
  }

  /** The normalised graph passes check(). */
  lemma NormalisedWellFormed(g: Graph)
    requires InBounds(g)
    ensures WellFormed(Normalised(g))
  {
    var r := Normalised(g);
    forall i, k | 0 <= i < |r| && 0 <= k < |r[i]|
      ensures 0 <= r[i][k] < |r| && i in r[r[i][k]]
    {
      assert r[i][k] in MutualBelow(g, i, |g|);
    }
  }

  /** Normalising a graph that already passes check() changes nothing. */
  lemma NormalisedKeepsWellFormed(g: Graph)
    requires WellFormed(g)
    ensures Normalised(g) == g
  {
    var r := Normalised(g);
    forall i | 0 <= i < |g|
      ensures r[i] == g[i]
    {
      forall x
        ensures x in r[i] <==> x in g[i]
      {
        if x in g[i] {
          var k :| 0 <= k < |g[i]| && g[i][k] == x;
        }
      }
      IncreasingSameMembers(r[i], g[i]);
    }
  }

  /** A graph of increasing lists holding exactly the mutual edges of g is the normalised graph. */
  lemma NormalisedByMembers(g: Graph, r: Graph)
    requires InBounds(g) && |r| == |g| && ListsIncreasing(r)
    requires forall i, x :: 0 <= i < |g| && x in r[i] ==> x in g[i]
    requires forall i, x :: 0 <= i < |g| && x in r[i] ==> x != i && i in g[x]
    requires forall i, x :: 0 <= i < |g| && x in g[i] && x != i && i in g[x] ==> x in r[i]
    ensures r == Normalised(g)
  {
    var n := Normalised(g);
    forall i | 0 <= i < |g|
      ensures r[i] == n[i]
    {
      var m := MutualBelow(g, i, |g|);
      assert n[i] == m;
      forall x
        ensures x in r[i] <==> x in m
      {
        if x in g[i] {
          var k :| 0 <= k < |g[i]| && g[i][k] == x;
        }
      }
      IncreasingSameMembers(r[i], n[i]);
    }
  }

  /**
   * The optimiser object. The constructor runs the four cleanup passes on
   * the interference lists; the queries below take those lists as `g`.
   */
  class LogicLockingOptimizer {
    var interference: Graph
    /** The nodes removeExclusiveEquivalentNodes cut out. */
    ghost var isolated: set<int>

    /** The source asserts inside hasEdge that every listed node is in range. */
    constructor (pairwiseInterference: Graph)
      requires InBounds(pairwiseInterference)
      ensures WellFormed(interference)
      ensures |interference| == |pairwiseInterference|
      ensures forall i, x :: 0 <= i < |interference| && x in interference[i] ==>
        x != i && x in pairwiseInterference[i] && i in pairwiseInterference[x]
      ensures forall d :: d in isolated ==> 0 <= d < |interference| && interference[d] == []
      ensures forall i, x :: 0 <= i < |interference| && i !in isolated ==>
        (x in interference[i] <==> x != i && x in pairwiseInterference[i] && i in pairwiseInterference[x] && x !in isolated)
      ensures interference == Pass(Normalised(pairwiseInterference), 0, 1)
      ensures isolated == Isolated(Normalised(pairwiseInterference), 0, 1)
    {
      var g := pairwiseInterference;
      var sorted := SortNeighbours(g);
      InBoundsByMembers(g, sorted);
      var loopFree := RemoveSelfLoops(sorted);
      InBoundsByMembers(sorted, loopFree);
      var mutual := RemoveDirectedEdges(loopFree);
      forall i | 0 <= i < |mutual|
        ensures i !in mutual[i]
      {
        assert i !in loopFree[i];
      }
      NormalisedByMembers(g, mutual);
      var cleaned := RemoveEquivalentNodes(mutual);
      PassEdges(mutual, 0, 1);
      interference := cleaned;
      isolated := Isolated(mutual, 0, 1);
    }
  }

  const SelfLoopMessage := "Pairwise interference is invalid: should have no self-loop"
  const OutOfBoundMessage := "Pairwise interference is invalid: some nodes are out of bound"
  const ReverseEdgeMessage := "Pairwise interference is invalid: reverse edge is not present"
  const UnsortedMessage := "Pairwise interference is invalid: should be sorted for each node"
  const DuplicateMessage := "Pairwise interference is invalid: should have no duplicate"

  /** Entry s of list i passed the three per-entry tests of check(). */
  predicate EntryPasses(g: Graph, i: nat, s: nat)
    requires i < |g| && s < |g[i]|
  {
    var j := g[i][s];
    j != i && 0 <= j < |g| && Search(g[j], i, 0, |g[j]|)
  }

  /** List i passed all tests of check(). */
  predicate ListPasses(g: Graph, i: nat)
    requires i < |g|
  {
    (forall s :: 0 <= s < |g[i]| ==> EntryPasses(g, i, s)) && Increasing(g[i])
  }

  /** Neighbouring entries increase, so the whole list does. */
  lemma {:induction false} StepwiseIncreasing(v: seq<int>)
    requires forall a :: 0 <= a && a + 1 < |v| ==> v[a] < v[a + 1]
    ensures Increasing(v)
  {
    if |v| > 1 {
      var front := v[..|v| - 1];
      StepwiseIncreasing(front);
      forall a | 0 <= a < |v| - 1
        ensures v[a] < v[|v| - 1]
      {
        if a < |v| - 2 {
          assert front[a] < front[|v| - 2];
        }
      }
    }
  }

  /** Once every list passed, the graph is well formed. */
  lemma PassingIsWellFormed(g: Graph)
    requires forall i :: 0 <= i < |g| ==> ListPasses(g, i)
    ensures WellFormed(g)
  {
    forall i, k | 0 <= i < |g| && 0 <= k < |g[i]|
      ensures 0 <= g[i][k] < |g| && g[i][k] != i
    {
      assert ListPasses(g, i);
      assert EntryPasses(g, i, k);
    }
    forall i | 0 <= i < |g|
      ensures i !in g[i] && Increasing(g[i])
    {
      assert ListPasses(g, i);
      assert forall k :: 0 <= k < |g[i]| ==> g[i][k] != i;
    }
    forall i, k | 0 <= i < |g| && 0 <= k < |g[i]|
      ensures i in g[g[i][k]]
    {
      assert ListPasses(g, i);
      assert EntryPasses(g, i, k);
      var j := g[i][k];
      assert ListPasses(g, j);
      SearchExact(g[j], i);
    }
  }

  /** In a well-formed graph the search for the reverse edge succeeds. */
  lemma ListedBack(g: Graph, i: nat, t: nat)
    requires i < |g| && t < |g[i]| && 0 <= g[i][t] < |g|
    ensures WellFormed(g) ==> Search(g[g[i][t]], i, 0, |g[g[i][t]]|)
  {
    if WellFormed(g) {
      SearchExact(g[g[i][t]], i);
    }
  }

  /**
   * check(): every entry differs from its node, is in range and is listed
   * back; then each list must be sorted and free of adjacent repeats.
   */
  method Check(g: Graph) returns (r: Result<()>)
    ensures r.Ok? <==> WellFormed(g)
    ensures r.Err? ==> r.msg in {SelfLoopMessage, OutOfBoundMessage, ReverseEdgeMessage, UnsortedMessage, DuplicateMessage}
  {
    for i := 0 to |g|
      invariant forall p :: 0 <= p < i ==> ListPasses(g, p)
    {
      var v := g[i];
      for t := 0 to |v|
        invariant forall s :: 0 <= s < t ==> EntryPasses(g, i, s)
      {
        var j := v[t];
        if i == j {
          return Err(SelfLoopMessage);
        }
        if j < 0 || j >= |g| {
          return Err(OutOfBoundMessage);
        }
        var back := HasEdge(g, j, i);
        if !back {
          ListedBack(g, i, t);
          return Err(ReverseEdgeMessage);
        }
      }
      var k := 0;
      while k + 1 < |v|
        invariant 0 <= k <= |v|
        invariant forall a :: 0 <= a < k && a + 1 < |v| ==> v[a] <= v[a + 1]
      {
        if v[k + 1] < v[k] {
          return Err(UnsortedMessage);
        }
        k := k + 1;
      }
      k := 0;
      while k + 1 < |v|
        invariant 0 <= k <= |v|
        invariant forall a :: 0 <= a < k && a + 1 < |v| ==> v[a] < v[a + 1]
      {
        if v[k] == v[k + 1] {
          return Err(DuplicateMessage);
        }
        k := k + 1;
      }
      StepwiseIncreasing(v);
    }
    PassingIsWellFormed(g);
    return Ok(());
  }

  /*
   * Counting queries.
   */

  /** The total length of the first n lists. */
  function DegreeSum(g: Graph, n: nat): (s: nat)
    requires n <= |g|
    ensures s == 0 <==> forall i :: 0 <= i < n ==> g[i] == []
  {
    if n == 0 then 0 else DegreeSum(g, n - 1) + |g[n - 1]|
  }

  /** The number of non-empty lists among the first n. */
  function ConnectedCount(g: Graph, n: nat): (c: nat)
    requires n <= |g|
    ensures c <= n
    ensures c == 0 <==> forall i :: 0 <= i < n ==> g[i] == []
    ensures c == n <==> forall i :: 0 <= i < n ==> g[i] != []
  {
    if n == 0 then 0 else ConnectedCount(g, n - 1) + (if g[n - 1] == [] then 0 else 1)
  }

  /** nbEdges as written: the loop stops at i + 1 < nbNodes, so the last list is never counted. */
  method NbEdgesAsWritten(g: Graph) returns (r: int)
    ensures |g| > 0 ==> r == DegreeSum(g, |g| - 1) / 2
    ensures |g| == 0 ==> r == 0
  {
    var sum := 0;
    var i := 0;
    while i + 1 < |g|
      invariant 0 <= i <= |g| && (|g| > 0 ==> i < |g|)
      invariant sum == DegreeSum(g, i)
    {
      sum := sum + |g[i]|;
      i := i + 1;
    }
    r := sum / 2;
  }

  /** nbEdges with the loop running over every node: half the total list length. */
  method NbEdges(g: Graph) returns (r: int)
    ensures r == DegreeSum(g, |g|) / 2
  {
    var sum := 0;
    for i := 0 to |g|
      invariant sum == DegreeSum(g, i)
    {
      sum := sum + |g[i]|;
    }
    r := sum / 2;
  }

  /** nbConnectedNodes as written: the last node is never counted. */
  method NbConnectedNodesAsWritten(g: Graph) returns (r: int)
    ensures |g| > 0 ==> r == ConnectedCount(g, |g| - 1)
    ensures |g| == 0 ==> r == 0
  {
    r := 0;
    var i := 0;
    while i + 1 < |g|
      invariant 0 <= i <= |g| && (|g| > 0 ==> i < |g|)
      invariant r == ConnectedCount(g, i)
    {
      if g[i] != [] {
        r := r + 1;
      }
      i := i + 1;
    }
  }

  /** nbConnectedNodes over every node. */
  method NbConnectedNodes(g: Graph) returns (r: int)
    ensures r == ConnectedCount(g, |g|)
  {
    r := 0;
    for i := 0 to |g|
      invariant r == ConnectedCount(g, i)
    {
      if g[i] != [] {
        r := r + 1;
      }
    }
  }

  /** The graph with the single edge 0-1: the counts as written miss node 1. */
  method SingleEdgeCounts() returns (edgesAsWritten: int, edges: int, connectedAsWritten: int, connected: int)
    ensures edgesAsWritten == 0 && edges == 1
    ensures connectedAsWritten == 1 && connected == 2
  {
    var g: Graph := [[1], [0]];
    assert DegreeSum(g, 1) == 1 && DegreeSum(g, 2) == 2;
    assert ConnectedCount(g, 1) == 1 && ConnectedCount(g, 2) == 2;
    edgesAsWritten := NbEdgesAsWritten(g);
    edges := NbEdges(g);
    connectedAsWritten := NbConnectedNodesAsWritten(g);
    connected := NbConnectedNodes(g);
  }

  /*
   * Cliques.
   */

  predicate NodesInRange(g: Graph, c: seq<int>)
  {
    forall k :: 0 <= k < |c| ==> 0 <= c[k] < |g|
  }

  /** The pair test isClique runs: for a < b, nodes[b] is in the list of nodes[a]. */
  predicate PairsListed(g: Graph, nodes: seq<int>)
    requires NodesInRange(g, nodes)
  {
    forall a, b :: 0 <= a < b < |nodes| ==> nodes[b] in g[nodes[a]]
  }

  /** A clique: distinct nodes, each listing every other. */
  ghost predicate Clique(g: Graph, c: seq<int>)
    requires NodesInRange(g, c)
  {
    Distinct(c) && forall a, b :: 0 <= a < |c| && 0 <= b < |c| && a != b ==> c[b] in g[c[a]]
  }

  /** On a well-formed graph the ordered pair test is exactly the clique property. */
  lemma PairsListedIsClique(g: Graph, c: seq<int>)
    requires WellFormed(g) && NodesInRange(g, c)
    ensures PairsListed(g, c) <==> Clique(g, c)
  {
    if PairsListed(g, c) {
      forall a, b | 0 <= a < b < |c|
        ensures c[a] != c[b]
      {
        assert c[b] in g[c[a]];
        assert c[a] !in g[c[a]];
      }
      forall a, b | 0 <= a < |c| && 0 <= b < |c| && a != b
        ensures c[b] in g[c[a]]
      {
        if b < a {
          assert c[a] in g[c[b]];
          var k :| 0 <= k < |g[c[b]]| && g[c[b]][k] == c[a];
        }
      }
    }
  }

  /** isClique: every pair, earlier node first, is an edge; hasEdge asserts the nodes are in range. */
  method IsClique(g: Graph, nodes: seq<int>) returns (b: bool)
    requires NodesInRange(g, nodes) && ListsIncreasing(g)
    ensures b <==> PairsListed(g, nodes)
  {
    var i := 0;
    while i + 1 < |nodes|
      invariant 0 <= i <= |nodes| && (|nodes| > 0 ==> i < |nodes|)
      invariant forall a, c :: 0 <= a < i && a < c < |nodes| ==> nodes[c] in g[nodes[a]]
    {
      for j := i + 1 to |nodes|
        invariant forall c :: i < c < j ==> nodes[c] in g[nodes[i]]
      {
        var e := HasEdge(g, nodes[i], nodes[j]);
        if !e {
          return false;
        }
      }
      i := i + 1;
    }
    return true;
  }

  /*
   * Maximal cliques (Bron-Kerbosch with pivot).
   */

  /** u lies outside c and every member of c lists it, so c + [u] would still be a clique. */
  predicate Extends(g: Graph, c: seq<int>, u: int)
    requires NodesInRange(g, c)
  {
    0 <= u < |g| && u !in c && forall k :: 0 <= k < |c| ==> u in g[c[k]]
  }

  /** No node extends c. */
  predicate Maximal(g: Graph, c: seq<int>)
    requires NodesInRange(g, c)
  {
    forall u :: 0 <= u < |g| ==> !Extends(g, c, u)
  }

  lemma InRangeByMembers(g: Graph, s: seq<int>, t: seq<int>)
    requires NodesInRange(g, s)
    requires forall y :: y in t ==> y in s
    ensures NodesInRange(g, t)
  {
    forall k | 0 <= k < |t|
      ensures 0 <= t[k] < |g|
    {
      assert t[k] in t;
      var j :| 0 <= j < |s| && s[j] == t[k];
    }
  }

  /** s ∩ N(v): the members of s that v lists, in order. */
  function Among(g: Graph, v: nat, s: seq<int>): (r: seq<int>)
    requires v < |g|
    ensures |r| <= |s|
    ensures forall x :: x in r <==> x in s && x in g[v]
  {
    if s == [] then []
    else Among(g, v, s[..|s| - 1]) + (if s[|s| - 1] in g[v] then [s[|s| - 1]] else [])
  }

  /** Leaving out a member of s that v does not list shortens the result. */
  lemma {:induction false} AmongShorter(g: Graph, v: nat, s: seq<int>, x: int)
    requires v < |g| && x in s && x !in g[v]
    ensures |Among(g, v, s)| < |s|
  {
    var front := s[..|s| - 1];
    if s[|s| - 1] != x {
      assert s == front + [s[|s| - 1]];
      AmongShorter(g, v, front, x);
    }
  }

  lemma {:induction false} AmongIncreasing(g: Graph, v: nat, s: seq<int>)
    requires v < |g| && Increasing(s)
    ensures Increasing(Among(g, v, s))
  {
    if s != [] {
      var front := s[..|s| - 1];
      AmongIncreasing(g, v, front);
      var m := Among(g, v, front);
      forall a | 0 <= a < |m|
        ensures m[a] < s[|s| - 1]
      {
        assert m[a] in m;
        var k :| 0 <= k < |front| && front[k] == m[a];
        assert s[k] < s[|s| - 1];
      }
    }
  }

  /** The loops building nextP and nextX, asking hasEdge(v, i) for each i. */
  method Neighbours(g: Graph, v: nat, s: seq<int>) returns (r: seq<int>)
    requires v < |g| && ListsIncreasing(g) && NodesInRange(g, s)
    ensures r == Among(g, v, s)
  {
    r := [];
    for t := 0 to |s|
      invariant r == Among(g, v, s[..t])
    {
      assert s[..t + 1][..t] == s[..t];
      var e := HasEdge(g, v, s[t]);
      if e {
        r := r + [s[t]];
      }
    }
    assert s[..|s|] == s;
  }

  /** Adding a node that extends a clique gives a clique. */
  lemma CliqueExtend(g: Graph, c: seq<int>, v: int)
    requires WellFormed(g) && NodesInRange(g, c) && Clique(g, c) && Extends(g, c, v)
    ensures NodesInRange(g, c + [v]) && Clique(g, c + [v])
  {
    var d := c + [v];
    forall a, b | 0 <= a < |d| && 0 <= b < |d| && a != b
      ensures d[b] in g[d[a]]
    {
      if a == |c| {
        assert v in g[c[b]];
        var k :| 0 <= k < |g[c[b]]| && g[c[b]][k] == v;
      } else if b < |c| {
        assert d[a] == c[a] && d[b] == c[b];
      }
    }
  }

  /** The nodes extending c + [v] are the nodes extending c that v lists. */
  lemma ExtendsStep(g: Graph, c: seq<int>, v: int, u: int)
    requires WellFormed(g) && NodesInRange(g, c) && 0 <= v < |g|
    ensures Extends(g, c + [v], u) <==> Extends(g, c, u) && u in g[v] && u != v
  {
    var d := c + [v];
    if Extends(g, c, u) && u in g[v] && u != v {
      forall k | 0 <= k < |d|
        ensures u in g[d[k]]
      {
        if k < |c| {
          assert d[k] == c[k];
        }
      }
    }
    if Extends(g, d, u) {
      assert u in g[d[|c|]];
      forall k | 0 <= k < |c|
        ensures u in g[c[k]]
      {
        assert d[k] == c[k];
      }
    }
  }

  /** The arguments of the recursive call for v meet its precondition. */
  lemma BranchReady(g: Graph, R: seq<int>, v: int, p: seq<int>, x: seq<int>)
    requires WellFormed(g) && NodesInRange(g, R) && NodesInRange(g, p) && NodesInRange(g, x)
    requires Clique(g, R) && Increasing(p) && v in p
    requires forall y :: y in p ==> Extends(g, R, y)
    requires forall y :: y in x ==> Extends(g, R, y)
    requires forall u :: Extends(g, R, u) ==> u in p || u in x
    ensures NodesInRange(g, R + [v]) && Clique(g, R + [v])
    ensures NodesInRange(g, Among(g, v, p)) && NodesInRange(g, Among(g, v, x))
    ensures Increasing(Among(g, v, p)) && |Among(g, v, p)| < |p|
    ensures forall y :: y in Among(g, v, p) ==> Extends(g, R + [v], y)
    ensures forall y :: y in Among(g, v, x) ==> Extends(g, R + [v], y)
    ensures forall u :: Extends(g, R + [v], u) ==> u in Among(g, v, p) || u in Among(g, v, x)
  {
    CliqueExtend(g, R, v);
    var nextP, nextX := Among(g, v, p), Among(g, v, x);
    AmongIncreasing(g, v, p);
    InRangeByMembers(g, p, nextP);
    InRangeByMembers(g, x, nextX);
    assert v !in g[v];
    AmongShorter(g, v, p, v);
    forall y | y in nextP
      ensures Extends(g, R + [v], y)
    {
      ExtendsStep(g, R, v, y);
    }
    forall y | y in nextX
      ensures Extends(g, R + [v], y)
    {
      ExtendsStep(g, R, v, y);
    }
    forall u | Extends(g, R + [v], u)
      ensures u in nextP || u in nextX
    {
      ExtendsStep(g, R, v, u);
    }
  }

  /*
   * Completeness of the enumeration.
   */

  ghost predicate MaximalClique(g: Graph, c: seq<int>)
  {
    NodesInRange(g, c) && Clique(g, c) && Maximal(g, c)
  }

  ghost predicate SameMembers(a: seq<int>, b: seq<int>)
  {
    forall y :: y in a <==> y in b
  }

  /** Some list of `found` has exactly the members of c. */
  ghost predicate Reported(found: seq<seq<int>>, c: seq<int>)
  {
    exists d :: d in found && SameMembers(d, c)
  }

  /** c holds every member of R, and its other members are drawn from P. */
  ghost predicate Within(R: seq<int>, c: seq<int>, P: seq<int>)
  {
    (forall y :: y in R ==> y in c) && forall y :: y in c ==> y in R || y in P
  }

  /** Every maximal clique between R and R + P is reported, or still lies between R and R + p. */
  ghost predicate Pending(g: Graph, R: seq<int>, P: seq<int>, p: seq<int>, found: seq<seq<int>>)
  {
    forall c :: MaximalClique(g, c) && Within(R, c, P) ==> Reported(found, c) || Within(R, c, p)
  }

  lemma ReportedAppend(found: seq<seq<int>>, sub: seq<seq<int>>, c: seq<int>)
    requires Reported(found, c) || Reported(sub, c)
    ensures Reported(found + sub, c)
  {
    if Reported(found, c) {
      var d :| d in found && SameMembers(d, c);
      assert d in found + sub;
    } else {
      var d :| d in sub && SameMembers(d, c);
      assert d in found + sub;
    }
  }

  /**
   * The pivot rule loses nothing: a maximal clique containing R has a
   * member outside R that the pivot does not list (the pivot itself when
   * it belongs to the clique), since otherwise the pivot would extend it.
   */
  lemma PivotMiss(g: Graph, R: seq<int>, c: seq<int>, pivot: int)
    requires WellFormed(g) && NodesInRange(g, R) && MaximalClique(g, c)
    requires (forall y :: y in R ==> y in c) && Extends(g, R, pivot)
    ensures exists w :: w in c && w !in R && w !in g[pivot]
  {
    if pivot in c {
      assert pivot !in g[pivot];
    } else if forall w :: w in c && w !in R ==> w in g[pivot] {
      forall k | 0 <= k < |c|
        ensures pivot in g[c[k]]
      {
        assert c[k] in c;
        if c[k] in R {
          var j :| 0 <= j < |R| && R[j] == c[k];
        } else {
          var i :| 0 <= i < |g[pivot]| && g[pivot][i] == c[k];
        }
      }
      assert Extends(g, c, pivot);
      assert false;
    }
  }

  /** The branch on v keeps every maximal clique reported or still pending with v erased from p. */
  lemma BranchPending(g: Graph, R: seq<int>, P: seq<int>, p: seq<int>, p': seq<int>, v: int,
                      found: seq<seq<int>>, sub: seq<seq<int>>)
    requires WellFormed(g) && 0 <= v < |g| && Pending(g, R, P, p, found)
    requires forall c :: MaximalClique(g, c) && Within(R + [v], c, Among(g, v, p)) ==> Reported(sub, c)
    requires forall y :: y in p' <==> y in p && y != v
    ensures Pending(g, R, P, p', found + sub)
  {
    forall c | MaximalClique(g, c) && Within(R, c, P)
      ensures Reported(found + sub, c) || Within(R, c, p')
    {
      if Reported(found, c) {
        ReportedAppend(found, sub, c);
      } else if v in c {
        forall y | y in c
          ensures y in R + [v] || y in Among(g, v, p)
        {
          if y !in R && y != v {
            var a :| 0 <= a < |c| && c[a] == v;
            var b :| 0 <= b < |c| && c[b] == y;
            assert y in g[v];
          }
        }
        assert Within(R + [v], c, Among(g, v, p));
        ReportedAppend(found, sub, c);
      }
    }
  }

  /** Erasing P[t] from p keeps the later members of P and everything else p had. */
  lemma AfterBranch(g: Graph, P: seq<int>, t: nat, p: seq<int>)
    requires t < |P| && Increasing(P) && Increasing(p) && NodesInRange(g, p)
    requires forall s :: t <= s < |P| ==> P[s] in p
    ensures Increasing(EraseFirst(p, P[t])) && NodesInRange(g, EraseFirst(p, P[t]))
    ensures |EraseFirst(p, P[t])| < |p|
    ensures forall y :: y in EraseFirst(p, P[t]) <==> y in p && y != P[t]
    ensures forall s :: t < s < |P| ==> P[s] in EraseFirst(p, P[t])
  {
    EraseFirstIncreasing(p, P[t]);
    forall s | t < s < |P|
      ensures P[s] != P[t]
    {
      assert P[t] < P[s];
    }
    InRangeByMembers(g, p, EraseFirst(p, P[t]));
  }

  /**
   * bronKerbosch(R, P, X): R is a clique, P holds the nodes that extend it
   * and are still to be tried, X nodes that extend it and were tried, and
   * every node extending R is in P or X. Every clique reported is maximal,
   * and every maximal clique between R and R + P is reported. The pivot
   * only skips branches.
   */
  method BronKerbosch(g: Graph, R: seq<int>, P: seq<int>, X: seq<int>) returns (found: seq<seq<int>>)
    requires WellFormed(g)
    requires NodesInRange(g, R) && NodesInRange(g, P) && NodesInRange(g, X)
    requires Clique(g, R) && Increasing(P)
    requires forall y :: y in P ==> Extends(g, R, y)
    requires forall y :: y in X ==> Extends(g, R, y)
    requires forall u :: Extends(g, R, u) ==> u in P || u in X
    ensures forall c :: c in found ==> NodesInRange(g, c) && Clique(g, c) && Maximal(g, c)
    ensures forall c :: MaximalClique(g, c) && Within(R, c, P) ==> Reported(found, c)
    decreases |P|
  {
    if X == [] && P == [] {
      OnlyR(g, R, P);
      return [R];
    }
    var pivot := if X == [] then P[|P| - 1] else X[|X| - 1];
    assert Extends(g, R, pivot);
    found := [];
    var p, x := P, X;
    for t := 0 to |P|
      invariant BronKerboschLoop(g, R, P, pivot, t, p, x, found)
    {
      var v := P[t];
      var skip := HasEdge(g, pivot, v);
      if skip {
        SkipStep(g, R, P, pivot, t, p, x, found);
      } else {
        var nextR := R + [v];
        var nextP := Neighbours(g, v, p);
        var nextX := Neighbours(g, v, x);
        BranchReady(g, R, v, p, x);
        var sub := BronKerbosch(g, nextR, nextP, nextX);
        BranchStep(g, R, P, pivot, t, p, x, found, sub);
        found := found + sub;
        p := EraseFirst(p, v);
        x := x + [v];
      }
    }
    PivotCloses(g, R, P, p, found, pivot);
  }

  /** With nothing left to add, a maximal clique between R and R + [] has R's members. */
  lemma OnlyR(g: Graph, R: seq<int>, P: seq<int>)
    requires P == []
    ensures forall c :: MaximalClique(g, c) && Within(R, c, P) ==> Reported([R], c)
  {
    forall c | MaximalClique(g, c) && Within(R, c, P)
      ensures Reported([R], c)
    {
      assert R in [R] && SameMembers(R, c);
    }
  }

  /** The loop invariant of bronKerbosch after the first t candidates of P. */
  ghost predicate BronKerboschLoop(g: Graph, R: seq<int>, P: seq<int>, pivot: int, t: int, p: seq<int>, x: seq<int>,
                                   found: seq<seq<int>>)
    requires NodesInRange(g, R) && 0 <= pivot < |g|
  {
    && 0 <= t <= |P| && Increasing(p) && |p| <= |P| && NodesInRange(g, p) && NodesInRange(g, x)
    && (forall y :: y in p ==> y in P)
    && (forall y :: y in x ==> Extends(g, R, y))
    && (forall s :: t <= s < |P| ==> P[s] in p)
    && (forall s :: 0 <= s < t && P[s] !in g[pivot] ==> P[s] !in p)
    && (forall u :: Extends(g, R, u) ==> u in p || u in x)
    && (forall c :: c in found ==> NodesInRange(g, c) && Clique(g, c) && Maximal(g, c))
    && Pending(g, R, P, p, found)
  }

  /** A candidate the pivot lists is skipped. */
  lemma SkipStep(g: Graph, R: seq<int>, P: seq<int>, pivot: int, t: int, p: seq<int>, x: seq<int>, found: seq<seq<int>>)
    requires NodesInRange(g, R) && 0 <= pivot < |g| && BronKerboschLoop(g, R, P, pivot, t, p, x, found)
    requires t < |P| && P[t] in g[pivot]
    ensures BronKerboschLoop(g, R, P, pivot, t + 1, p, x, found)
  {}

  /** A candidate the pivot does not list is branched on, then moved from p to x. */
  lemma BranchStep(g: Graph, R: seq<int>, P: seq<int>, pivot: int, t: int, p: seq<int>, x: seq<int>,
                   found: seq<seq<int>>, sub: seq<seq<int>>)
    requires WellFormed(g) && NodesInRange(g, R) && Increasing(P) && 0 <= pivot < |g|
    requires BronKerboschLoop(g, R, P, pivot, t, p, x, found)
    requires forall y :: y in P ==> Extends(g, R, y)
    requires t < |P| && P[t] !in g[pivot] && 0 <= P[t] < |g|
    requires forall c :: c in sub ==> NodesInRange(g, c) && Clique(g, c) && Maximal(g, c)
    requires forall c :: MaximalClique(g, c) && Within(R + [P[t]], c, Among(g, P[t], p)) ==> Reported(sub, c)
    ensures BronKerboschLoop(g, R, P, pivot, t + 1, EraseFirst(p, P[t]), x + [P[t]], found + sub)
  {
    var v := P[t];
    AfterBranch(g, P, t, p);
    BranchShrinks(g, P, pivot, t, p);
    assert v in P;
    BranchExcludes(g, R, v, p, EraseFirst(p, v), x);
    BranchPending(g, R, P, p, EraseFirst(p, v), v, found, sub);
    ReportedCliques(g, found, sub);
  }

  /** Branching on candidate t removes it from p and keeps p's invariants. */
  lemma BranchShrinks(g: Graph, P: seq<int>, pivot: int, t: int, p: seq<int>)
    requires Increasing(P) && 0 <= pivot < |g| && 0 <= t < |P| && P[t] !in g[pivot]
    requires Increasing(p) && |p| <= |P| && NodesInRange(g, p) && (forall y :: y in p ==> y in P)
    requires (forall s :: t <= s < |P| ==> P[s] in p) && (forall s :: 0 <= s < t && P[s] !in g[pivot] ==> P[s] !in p)
    ensures var p' := EraseFirst(p, P[t]);
      && Increasing(p') && |p'| <= |P| && NodesInRange(g, p') && (forall y :: y in p' ==> y in P)
      && (forall s :: t + 1 <= s < |P| ==> P[s] in p') && (forall s :: 0 <= s < t + 1 && P[s] !in g[pivot] ==> P[s] !in p')
  {
    AfterBranch(g, P, t, p);
  }

  /** Branching on candidate v moves it to x: every node extending R is still in p or in x. */
  lemma BranchExcludes(g: Graph, R: seq<int>, v: int, p: seq<int>, p': seq<int>, x: seq<int>)
    requires NodesInRange(g, R) && 0 <= v < |g| && Extends(g, R, v) && NodesInRange(g, x) && (forall y :: y in x ==> Extends(g, R, y))
    requires forall u :: Extends(g, R, u) ==> u in p || u in x
    requires forall y :: y in p' <==> y in p && y != v
    ensures NodesInRange(g, x + [v]) && (forall y :: y in x + [v] ==> Extends(g, R, y))
    ensures forall u :: Extends(g, R, u) ==> u in p' || u in x + [v]
  {
    var x' := x + [v];
    assert NodesInRange(g, x');
  }

  /** Appending the cliques a branch reported keeps every reported list a maximal clique. */
  lemma ReportedCliques(g: Graph, found: seq<seq<int>>, sub: seq<seq<int>>)
    requires forall c :: c in found ==> NodesInRange(g, c) && Clique(g, c) && Maximal(g, c)
    requires forall c :: c in sub ==> NodesInRange(g, c) && Clique(g, c) && Maximal(g, c)
    ensures forall c :: c in found + sub ==> NodesInRange(g, c) && Clique(g, c) && Maximal(g, c)
  {}

  /** After every branch the pivot allows, nothing is left pending. */
  lemma PivotCloses(g: Graph, R: seq<int>, P: seq<int>, p: seq<int>, found: seq<seq<int>>, pivot: int)
    requires WellFormed(g) && NodesInRange(g, R) && Extends(g, R, pivot)
    requires Pending(g, R, P, p, found)
    requires forall s :: 0 <= s < |P| && P[s] !in g[pivot] ==> P[s] !in p
    ensures forall c :: MaximalClique(g, c) && Within(R, c, P) ==> Reported(found, c)
  {
    forall c | MaximalClique(g, c) && Within(R, c, P)
      ensures Reported(found, c)
    {
      if !Reported(found, c) {
        PivotMiss(g, R, c, pivot);
      }
    }
  }

  /** Distinct nodes drawn from a clique form a clique. */
  lemma CliqueSubset(g: Graph, c: seq<int>, d: seq<int>)
    requires NodesInRange(g, c) && Clique(g, c) && Distinct(d)
    requires forall y :: y in d ==> y in c
    ensures NodesInRange(g, d) && Clique(g, d)
  {
    InRangeByMembers(g, c, d);
    forall a, b | 0 <= a < |d| && 0 <= b < |d| && a != b
      ensures d[b] in g[d[a]]
    {
      assert d[a] in d && d[b] in d;
      var a' :| 0 <= a' < |c| && c[a'] == d[a];
      var b' :| 0 <= b' < |c| && c[b'] == d[b];
    }
  }

  /** A node extending d extends any c whose members all lie in d. */
  lemma ExtendsMembers(g: Graph, c: seq<int>, d: seq<int>, u: int)
    requires NodesInRange(g, c) && NodesInRange(g, d)
    requires forall y :: y in c <==> y in d
    ensures Extends(g, d, u) ==> Extends(g, c, u)
  {
    if Extends(g, d, u) {
      forall k | 0 <= k < |c|
        ensures u in g[c[k]]
      {
        assert c[k] in d;
        var j :| 0 <= j < |d| && d[j] == c[k];
      }
    }
  }

  /** Sorting a maximal clique gives an increasing maximal clique. */
  lemma SortedClique(g: Graph, c: seq<int>, d: seq<int>)
    requires NodesInRange(g, c) && Clique(g, c) && Maximal(g, c)
    requires multiset(d) == multiset(c) && SortedBy(d, IntLess) && Distinct(d)
    ensures NodesInRange(g, d) && Increasing(d) && Clique(g, d) && Maximal(g, d)
  {
    forall y
      ensures y in c <==> y in d
    {
      assert y in multiset(c) <==> y in multiset(d);
    }
    CliqueSubset(g, c, d);
    forall u | 0 <= u < |g|
      ensures Extends(g, d, u) ==> Extends(g, c, u)
    {
      ExtendsMembers(g, c, d, u);
    }
    forall a, b | 0 <= a < b < |d|
      ensures d[a] < d[b]
    {
      assert !IntLess(d[b], d[a]);
    }
  }

  /** Two increasing lists with the same members are equal. */
  lemma {:induction false} IncreasingSameMembers(a: seq<int>, b: seq<int>)
    requires Increasing(a) && Increasing(b) && SameMembers(a, b)
    ensures a == b
  {
    if b != [] {
      assert b[0] in b;
    }
    if a != [] {
      assert a[0] in a;
      assert a[0] in b && b[0] in a;
      assert a[0] == b[0];
      forall y
        ensures y in a[1..] <==> y in b[1..]
      {
        if y in a[1..] {
          var k :| 1 <= k < |a| && a[k] == y;
          assert y in b;
        }
        if y in b[1..] {
          var k :| 1 <= k < |b| && b[k] == y;
          assert y in a;
        }
      }
      IncreasingSameMembers(a[1..], b[1..]);
    }
  }

  /**
   * listMaximalCliques: Bron-Kerbosch from R = X = [] and P = every node,
   * then each clique sorted. Exactly the maximal cliques are listed, each
   * as its increasing list of nodes.
   */
  method ListMaximalCliques(g: Graph) returns (cliques: seq<seq<int>>)
    requires WellFormed(g)
    ensures forall c :: c in cliques ==> NodesInRange(g, c) && Increasing(c) && Clique(g, c) && Maximal(g, c)
    ensures forall c :: MaximalClique(g, c) ==> Reported(cliques, c)
    ensures forall c :: MaximalClique(g, c) && Increasing(c) ==> c in cliques
  {
    var all: seq<int> := [];
    for i := 0 to |g|
      invariant |all| == i && forall k :: 0 <= k < i ==> all[k] == k
    {
      all := all + [i];
    }
    forall u | Extends(g, [], u)
      ensures u in all
    {
      assert all[u] == u;
    }
    var found := BronKerbosch(g, [], all, []);
    NumberOrders();
    cliques := [];
    for i := 0 to |found|
      invariant |cliques| == i
      invariant forall c :: c in cliques ==> NodesInRange(g, c) && Increasing(c) && Clique(g, c) && Maximal(g, c)
      invariant forall k :: 0 <= k < i ==> SameMembers(cliques[k], found[k])
    {
      assert found[i] in found;
      var sorted := SortBy(found[i], IntLess);
      SortedClique(g, found[i], sorted);
      forall y
        ensures y in sorted <==> y in found[i]
      {
        assert y in multiset(sorted) <==> y in multiset(found[i]);
      }
      cliques := cliques + [sorted];
    }
    forall c | MaximalClique(g, c)
      ensures Reported(cliques, c)
    {
      forall y | y in c
        ensures y in [] || y in all
      {
        var k :| 0 <= k < |c| && c[k] == y;
        assert all[y] == y;
      }
      assert Within([], c, all);
      var d :| d in found && SameMembers(d, c);
      var k :| 0 <= k < |found| && found[k] == d;
      assert SameMembers(cliques[k], c);
    }
    forall c | MaximalClique(g, c) && Increasing(c)
      ensures c in cliques
    {
      var d :| d in cliques && SameMembers(d, c);
      IncreasingSameMembers(d, c);
    }
  }


  /*
   * Solutions: lists of disjoint cliques.
   */

  /** The groups' nodes in order (flattenSolution). */
  function Flatten(sol: seq<seq<int>>): (r: seq<int>)
    ensures forall i, x :: 0 <= i < |sol| && x in sol[i] ==> x in r
  {
    if sol == [] then [] else sol[0] + Flatten(sol[1..])
  }

  lemma {:induction false} FlattenSplit(sol: seq<seq<int>>, i: nat)
    requires i <= |sol|
    ensures Flatten(sol) == Flatten(sol[..i]) + Flatten(sol[i..])
  {
    if i == 0 {
      assert sol[..0] == [] && sol[0..] == sol;
    } else {
      FlattenSplit(sol[1..], i - 1);
      assert sol[1..][..i - 1] == sol[..i][1..];
      assert sol[1..][i - 1..] == sol[i..];
    }
  }

  lemma FlattenSnoc(sol: seq<seq<int>>, c: seq<int>)
    ensures Flatten(sol + [c]) == Flatten(sol) + c
  {
    var s := sol + [c];
    FlattenSplit(s, |sol|);
    assert s[..|sol|] == sol;
    assert s[|sol|..] == [c];
    assert Flatten([c]) == c + Flatten([]);
  }

  /** flattenSolution: the groups' nodes concatenated, group by group. */
  method FlattenSolution(sol: seq<seq<int>>) returns (r: seq<int>)
    ensures r == Flatten(sol)
    ensures forall i, x :: 0 <= i < |sol| && x in sol[i] ==> x in r
  {
    r := [];
    for i := 0 to |sol|
      invariant r == Flatten(sol[..i])
    {
      var c := sol[i];
      for t := 0 to |c|
        invariant r == Flatten(sol[..i]) + c[..t]
      {
        assert c[..t + 1] == c[..t] + [c[t]];
        r := r + [c[t]];
      }
      assert c[..|c|] == c;
      assert sol[..i + 1] == sol[..i] + [c];
      FlattenSnoc(sol[..i], c);
    }
    assert sol[..|sol|] == sol;
  }

  /** What check(sol) accepts: nodes in range, no node twice, every group a clique. */
  ghost predicate ValidSolution(g: Graph, sol: seq<seq<int>>)
  {
    (forall i :: 0 <= i < |sol| ==> NodesInRange(g, sol[i]) && Clique(g, sol[i]))
    && Distinct(Flatten(sol))
  }

  const OutOfBoundNodeMessage := "Solution is invalid: some nodes are out of bound"
  const RepeatedNodeMessage := "Solution is invalid: same node is present in multiple groups"
  const NotCliqueMessage := "Solution is invalid: some groups are not cliques"

  lemma DistinctSnoc(s: seq<int>, x: int)
    requires Distinct(s) && x !in s
    ensures Distinct(s + [x])
  {
    forall a, b | 0 <= a < b < |s + [x]|
      ensures (s + [x])[a] != (s + [x])[b]
    {
      if b == |s| {
        assert s[a] in s;
      }
    }
  }

  /** A node met again while scanning makes the flattened solution repeat a value. */
  lemma RepeatSpoils(sol: seq<seq<int>>, i: nat, t: nat)
    requires i < |sol| && t < |sol[i]|
    requires sol[i][t] in Flatten(sol[..i]) + sol[i][..t]
    ensures !Distinct(Flatten(sol))
  {
    var pre := Flatten(sol[..i]) + sol[i][..t];
    var k :| 0 <= k < |pre| && pre[k] == sol[i][t];
    FlattenSplit(sol, i);
    assert Flatten(sol[i..]) == sol[i] + Flatten(sol[i + 1..]) by {
      assert sol[i..][1..] == sol[i + 1..];
    }
    var f := Flatten(sol);
    var j := |Flatten(sol[..i])| + t;
    assert f[j] == sol[i][t];
    if k < |Flatten(sol[..i])| {
      assert f[k] == pre[k];
    } else {
      assert f[k] == sol[i][k - |Flatten(sol[..i])|] == pre[k];
    }
  }

  /** check(sol): per group, each node in range and new, then the group a clique. */
  method CheckSolution(g: Graph, sol: seq<seq<int>>) returns (r: Result<()>)
    requires WellFormed(g)
    ensures r.Ok? <==> ValidSolution(g, sol)
    ensures r.Err? ==> r.msg in {OutOfBoundNodeMessage, RepeatedNodeMessage, NotCliqueMessage}
  {
    var present: set<int> := {};
    for i := 0 to |sol|
      invariant forall x :: x in present <==> x in Flatten(sol[..i])
      invariant Distinct(Flatten(sol[..i]))
      invariant forall q :: 0 <= q < i ==> NodesInRange(g, sol[q]) && Clique(g, sol[q])
    {
      var c := sol[i];
      for t := 0 to |c|
        invariant forall x :: x in present <==> x in Flatten(sol[..i]) + c[..t]
        invariant Distinct(Flatten(sol[..i]) + c[..t])
        invariant forall k :: 0 <= k < t ==> 0 <= c[k] < |g|
      {
        var node := c[t];
        if node >= |g| || node < 0 {
          return Err(OutOfBoundNodeMessage);
        }
        if node in present {
          RepeatSpoils(sol, i, t);
          return Err(RepeatedNodeMessage);
        }
        assert c[..t + 1] == c[..t] + [node];
        DistinctSnoc(Flatten(sol[..i]) + c[..t], node);
        assert Flatten(sol[..i]) + c[..t + 1] == Flatten(sol[..i]) + c[..t] + [node];
        present := present + {node};
      }
      assert c[..|c|] == c;
      var ok := IsClique(g, c);
      PairsListedIsClique(g, c);
      if !ok {
        return Err(NotCliqueMessage);
      }
      assert sol[..i + 1] == sol[..i] + [c];
      FlattenSnoc(sol[..i], c);
    }
    assert sol[..|sol|] == sol;
    return Ok(());
  }

  /*
   * solveBruteForce: greedy packing of the maximal cliques, largest first.
   */

  /** The scan for the largest clique: a strict comparison keeps the earliest on ties. */
  /** The first clique of largest size. */
  function FirstLargest(cs: seq<seq<int>>): (i: nat)
    requires cs != []
    ensures i < |cs|
    ensures forall k :: 0 <= k < |cs| ==> |cs[k]| <= |cs[i]|
    ensures forall k :: 0 <= k < i ==> |cs[k]| < |cs[i]|
  {
    if |cs| == 1 then 0
    else
      var j := FirstLargest(cs[..|cs| - 1]);
      assert forall k :: 0 <= k < |cs| - 1 ==> cs[..|cs| - 1][k] == cs[k];
      if |cs[|cs| - 1]| > |cs[j]| then |cs| - 1 else j
  }

  method PickLargest(cliques: seq<seq<int>>) returns (best: nat)
    requires cliques != []
    ensures best == FirstLargest(cliques)
    ensures best < |cliques|
    ensures forall i :: 0 <= i < |cliques| ==> |cliques[i]| <= |cliques[best]|
    ensures forall i :: 0 <= i < best ==> |cliques[i]| < |cliques[best]|
  {
    best := 0;
    for i := 1 to |cliques|
      invariant best < i
      invariant forall k :: 0 <= k < i ==> |cliques[k]| <= |cliques[best]|
      invariant forall k :: 0 <= k < best ==> |cliques[k]| < |cliques[best]|
    {
      if |cliques[i]| > |cliques[best]| {
        best := i;
      }
    }
  }

  /** c without the members of b, in order. */
  function Without(c: seq<int>, b: seq<int>): (r: seq<int>)
    ensures |r| <= |c|
    ensures forall x :: x in r <==> x in c && x !in b
  {
    if c == [] then []
    else Without(c[..|c| - 1], b) + (if c[|c| - 1] in b then [] else [c[|c| - 1]])
  }

  lemma {:induction false} WithoutIncreasing(c: seq<int>, b: seq<int>)
    requires Increasing(c)
    ensures Increasing(Without(c, b))
  {
    if c != [] {
      var front := c[..|c| - 1];
      WithoutIncreasing(front, b);
      var m := Without(front, b);
      forall a | 0 <= a < |m|
        ensures m[a] < c[|c| - 1]
      {
        assert m[a] in m;
        var k :| 0 <= k < |front| && front[k] == m[a];
        assert c[k] < c[|c| - 1];
      }
    }
  }

  /** The cleaning of one clique: keep the nodes the binary search does not find in best. */
  method CleanClique(c: seq<int>, best: seq<int>) returns (cleaned: seq<int>)
    requires Increasing(best)
    ensures cleaned == Without(c, best)
  {
    cleaned := [];
    for t := 0 to |c|
      invariant cleaned == Without(c[..t], best)
    {
      assert c[..t + 1][..t] == c[..t];
      var used := BinarySearch(best, c[t]);
      if !used {
        cleaned := cleaned + [c[t]];
      }
    }
    assert c[..|c|] == c;
  }

  method CleanAll(cliques: seq<seq<int>>, best: seq<int>) returns (r: seq<seq<int>>)
    requires Increasing(best)
    ensures |r| == |cliques| && forall i :: 0 <= i < |r| ==> r[i] == Without(cliques[i], best)
  {
    r := [];
    for i := 0 to |cliques|
      invariant |r| == i && forall k :: 0 <= k < i ==> r[k] == Without(cliques[k], best)
    {
      var cleaned := CleanClique(cliques[i], best);
      r := r + [cleaned];
    }
  }

  /** remove_if of the empty cliques. */
  function NonEmpty(cs: seq<seq<int>>): (r: seq<seq<int>>)
    ensures |r| <= |cs|
    ensures forall c :: c in r <==> c in cs && c != []
  {
    if cs == [] then []
    else NonEmpty(cs[..|cs| - 1]) + (if cs[|cs| - 1] == [] then [] else [cs[|cs| - 1]])
  }

  /** The cliques still to pack: in range, increasing, cliques, and free of the nodes used. */
  ghost predicate Pool(g: Graph, cliques: seq<seq<int>>, used: seq<int>)
  {
    forall c :: c in cliques ==>
      NodesInRange(g, c) && Increasing(c) && Clique(g, c) && forall k :: 0 <= k < |c| ==> c[k] !in used
  }

  lemma DistinctConcat(a: seq<int>, b: seq<int>)
    requires Distinct(a) && Distinct(b)
    requires forall k :: 0 <= k < |b| ==> b[k] !in a
    ensures Distinct(a + b)
  {
    forall i, j | 0 <= i < j < |a + b|
      ensures (a + b)[i] != (a + b)[j]
    {
      if i < |a| && j >= |a| {
        assert a[i] in a;
        assert (a + b)[j] == b[j - |a|];
      }
    }
  }

  /** Adding a prefix of a pooled clique keeps the solution valid. */
  lemma PickKeepsValid(g: Graph, sol: seq<seq<int>>, orig: seq<int>, best: seq<int>)
    requires ValidSolution(g, sol)
    requires NodesInRange(g, orig) && Increasing(orig) && Clique(g, orig)
    requires forall k :: 0 <= k < |orig| ==> orig[k] !in Flatten(sol)
    requires |best| <= |orig| && best == orig[..|best|]
    ensures Increasing(best) && ValidSolution(g, sol + [best])
  {
    assert forall y :: y in best ==> y in orig;
    CliqueSubset(g, orig, best);
    FlattenSnoc(sol, best);
    DistinctConcat(Flatten(sol), best);
    var s := sol + [best];
    forall i | 0 <= i < |s|
      ensures NodesInRange(g, s[i]) && Clique(g, s[i])
    {
      if i < |sol| {
        assert s[i] == sol[i];
      }
    }
  }

  /** Cleaning the pool against the picked nodes keeps it a pool and keeps every size within the bound. */
  lemma CleanKeepsPool(g: Graph, cliques: seq<seq<int>>, r: seq<seq<int>>, used: seq<int>, best: seq<int>, bound: nat)
    requires Pool(g, cliques, used)
    requires |r| == |cliques| && forall i :: 0 <= i < |r| ==> r[i] == Without(cliques[i], best)
    requires forall c :: c in cliques ==> |c| <= bound
    ensures Pool(g, NonEmpty(r), used + best)
    ensures forall c :: c in NonEmpty(r) ==> |c| <= bound
  {
    forall c | c in NonEmpty(r)
      ensures NodesInRange(g, c) && Increasing(c) && Clique(g, c)
      ensures forall k :: 0 <= k < |c| ==> c[k] !in used + best
      ensures |c| <= bound
    {
      var i :| 0 <= i < |r| && r[i] == c;
      var o := cliques[i];
      assert o in cliques;
      WithoutIncreasing(o, best);
      assert forall y :: y in c ==> y in o;
      CliqueSubset(g, o, c);
      forall k | 0 <= k < |c|
        ensures c[k] !in used + best
      {
        assert c[k] in c;
        var j :| 0 <= j < |o| && o[j] == c[k];
      }
    }
  }

  lemma {:induction false} NoneNonEmpty(cs: seq<seq<int>>)
    requires forall i :: 0 <= i < |cs| ==> cs[i] == []
    ensures NonEmpty(cs) == []
  {
    if cs != [] {
      NoneNonEmpty(cs[..|cs| - 1]);
    }
  }

  function Min(a: int, b: int): int
  {
    if a <= b then a else b
  }

  /** The pop_back loop: drop nodes from the end until the clique fits the budget. */
  method Truncate(orig: seq<int>, budget: int) returns (best: seq<int>)
    requires budget > 0
    ensures |best| == Min(|orig|, budget)
    ensures best == orig[..|best|]
  {
    best := orig;
    while |best| > budget
      invariant |best| <= |orig| && best == orig[..|best|]
      invariant |best| < |orig| ==> |best| >= budget
    {
      best := best[..|best| - 1];
    }
  }

  /**
   * What holds between two rounds of solveBruteForce: the partial solution
   * is valid and within the budget, its groups are largest first, and the
   * pool is disjoint from it and, while budget remains, no larger than its
   * last group.
   */
  ghost predicate Packing(g: Graph, cliques: seq<seq<int>>, sol: seq<seq<int>>, current: int, maxNumber: int)
  {
    current == |Flatten(sol)| && (sol == [] || current <= maxNumber)
    && ValidSolution(g, sol) && Pool(g, cliques, Flatten(sol))
    && (forall a, b :: 0 <= a < b < |sol| ==> |sol[b]| <= |sol[a]|)
    && (sol != [] && current < maxNumber ==> forall c :: c in cliques ==> |c| <= |sol[|sol| - 1]|)
  }

  /**
   * One round of solveBruteForce: take the largest clique (the earliest on
   * ties), truncate it to the remaining budget, add it, remove its nodes
   * from every clique and drop the empty ones.
   */
  method PackRound(g: Graph, cliques: seq<seq<int>>, sol: seq<seq<int>>, current: int, maxNumber: int)
    returns (bestInd: nat, cliques': seq<seq<int>>, sol': seq<seq<int>>, current': int)
    requires cliques != [] && current < maxNumber
    requires Packing(g, cliques, sol, current, maxNumber)
    ensures bestInd < |cliques|
    ensures forall i :: 0 <= i < |cliques| ==> |cliques[i]| <= |cliques[bestInd]|
    ensures forall i :: 0 <= i < bestInd ==> |cliques[i]| < |cliques[bestInd]|
    ensures sol' == sol + [cliques[bestInd][..Min(|cliques[bestInd]|, maxNumber - current)]]
    ensures Packing(g, cliques', sol', current', maxNumber)
    ensures current < current' || (current' == current && cliques' == [])
    ensures bestInd == FirstLargest(cliques) && sol' == sol + [RoundPick(cliques, current, maxNumber)]
    ensures current' == current + |RoundPick(cliques, current, maxNumber)|
    ensures cliques' == RoundPool(cliques, RoundPick(cliques, current, maxNumber))
  {
    bestInd := PickLargest(cliques);
    var orig := cliques[bestInd];
    var best := Truncate(orig, maxNumber - current);
    assert best == RoundPick(cliques, current, maxNumber);
    var cleaned := CleanAll(cliques, best);
    RoundKeepsPacking(g, cliques, sol, current, maxNumber, orig, best, cleaned);
    current' := current + |best|;
    sol' := sol + [best];
    cliques' := NonEmpty(cleaned);
    assert cleaned == Cleaned(cliques, best);
  }

  /** The state after a round is again a packing, and the round made progress. */
  lemma RoundKeepsPacking(g: Graph, cliques: seq<seq<int>>, sol: seq<seq<int>>, current: int, maxNumber: int,
                          orig: seq<int>, best: seq<int>, cleaned: seq<seq<int>>)
    requires current < maxNumber && Packing(g, cliques, sol, current, maxNumber)
    requires orig in cliques && forall c :: c in cliques ==> |c| <= |orig|
    requires |best| == Min(|orig|, maxNumber - current) && best == orig[..|best|]
    requires |cleaned| == |cliques| && forall i :: 0 <= i < |cleaned| ==> cleaned[i] == Without(cliques[i], best)
    ensures Packing(g, NonEmpty(cleaned), sol + [best], current + |best|, maxNumber)
    ensures best != [] || NonEmpty(cleaned) == []
  {
    var sol', pool' := sol + [best], NonEmpty(cleaned);
    PickKeepsValid(g, sol, orig, best);
    CleanKeepsPool(g, cliques, cleaned, Flatten(sol), best, |orig|);
    FlattenSnoc(sol, best);
    assert Pool(g, pool', Flatten(sol'));
    if best == [] {
      NoneNonEmpty(cleaned);
    }
    if sol != [] {
      assert |best| <= |sol[|sol| - 1]|;
    }
    LargestFirst(sol, best);
    assert sol'[|sol'| - 1] == best;
    if current + |best| < maxNumber {
      assert |best| == |orig|;
    }
  }

  lemma LargestFirst(sol: seq<seq<int>>, best: seq<int>)
    requires forall a, b :: 0 <= a < b < |sol| ==> |sol[b]| <= |sol[a]|
    requires sol != [] ==> |best| <= |sol[|sol| - 1]|
    ensures forall a, b :: 0 <= a < b < |sol + [best]| ==> |(sol + [best])[b]| <= |(sol + [best])[a]|
  {
    var s := sol + [best];
    forall a, b | 0 <= a < b < |s|
      ensures |s[b]| <= |s[a]|
    {
      if b == |sol| {
        assert s[b] == best && s[a] == sol[a];
        if a < |sol| - 1 {
          assert |sol[|sol| - 1]| <= |sol[a]|;
        }
      } else {
        assert s[a] == sol[a] && s[b] == sol[b];
      }
    }
  }

  /** The group a round adds: the first largest clique, cut to the remaining budget. */
  function RoundPick(cliques: seq<seq<int>>, current: int, maxNumber: int): (best: seq<int>)
    requires cliques != [] && current < maxNumber
    ensures |best| == Min(|cliques[FirstLargest(cliques)]|, maxNumber - current)
    ensures best == cliques[FirstLargest(cliques)][..|best|]
  {
    var c := cliques[FirstLargest(cliques)];
    c[..Min(|c|, maxNumber - current)]
  }

  /** Every clique of the pool with the nodes of best removed. */
  function Cleaned(cliques: seq<seq<int>>, best: seq<int>): (r: seq<seq<int>>)
    ensures |r| == |cliques| && forall i :: 0 <= i < |r| ==> r[i] == Without(cliques[i], best)
  {
    seq(|cliques|, i requires 0 <= i < |cliques| => Without(cliques[i], best))
  }

  /** The pool after a round: the cleaned cliques that are not empty. */
  function RoundPool(cliques: seq<seq<int>>, best: seq<int>): seq<seq<int>>
  {
    NonEmpty(Cleaned(cliques, best))
  }

  /** A round that adds no node empties the pool: the largest clique, and so every clique, was empty. */
  lemma EmptyPickEmptiesPool(cliques: seq<seq<int>>, current: int, maxNumber: int)
    requires cliques != [] && current < maxNumber
    ensures RoundPick(cliques, current, maxNumber) == [] ==> RoundPool(cliques, []) == []
  {
    if RoundPick(cliques, current, maxNumber) == [] {
      var r := Cleaned(cliques, []);
      forall i | 0 <= i < |r|
        ensures r[i] == []
      {
        assert |Without(cliques[i], [])| <= |cliques[i]| <= |cliques[FirstLargest(cliques)]| == 0;
      }
      NoneNonEmpty(r);
    }
  }

  /**
   * The rounds of solveBruteForce from the given groups: while cliques
   * remain and fewer than maxNumber nodes are used, add the round's group
   * and clean the pool.
   */
  function Pack(cliques: seq<seq<int>>, sol: seq<seq<int>>, maxNumber: int): seq<seq<int>>
    decreases maxNumber - |Flatten(sol)|, |cliques|
  {
    if cliques == [] || |Flatten(sol)| >= maxNumber then sol
    else
      var best := RoundPick(cliques, |Flatten(sol)|, maxNumber);
      EmptyPickEmptiesPool(cliques, |Flatten(sol)|, maxNumber);
      FlattenSnoc(sol, best);
      Pack(RoundPool(cliques, best), sol + [best], maxNumber)
  }

  /** Every node of the original pool is used or still in some clique of the pool. */
  ghost predicate Covered(pool: seq<seq<int>>, cliques: seq<seq<int>>, used: seq<int>)
  {
    forall c, y :: c in pool && y in c ==> y in used || exists d :: d in cliques && y in d
  }

  /** A round keeps every node of the original pool used or pooled. */
  lemma RoundCovers(pool: seq<seq<int>>, cliques: seq<seq<int>>, sol: seq<seq<int>>, best: seq<int>)
    requires Covered(pool, cliques, Flatten(sol))
    ensures Covered(pool, RoundPool(cliques, best), Flatten(sol + [best]))
  {
    FlattenSnoc(sol, best);
    var r := Cleaned(cliques, best);
    forall c, y | c in pool && y in c && y !in Flatten(sol + [best])
      ensures exists d :: d in RoundPool(cliques, best) && y in d
    {
      var d :| d in cliques && y in d;
      var i :| 0 <= i < |cliques| && cliques[i] == d;
      assert y in r[i] && r[i] in r;
    }
  }

  /** When the loop stops, the run is complete and, short of the budget, has used every pooled node. */
  lemma PackDone(target: seq<seq<int>>, pool: seq<seq<int>>, cliques: seq<seq<int>>, sol: seq<seq<int>>, current: int, maxNumber: int)
    requires cliques == [] || current >= maxNumber
    requires current == |Flatten(sol)| && Pack(cliques, sol, maxNumber) == target
    requires Covered(pool, cliques, Flatten(sol))
    ensures sol == target
    ensures |Flatten(sol)| < maxNumber ==> forall c, y :: c in pool && y in c ==> y in Flatten(sol)
  {
  }

  /**
   * solveBruteForce(maxNumber): rounds of PackRound over the maximal
   * cliques while cliques remain and the budget is not spent. pool is the
   * list of maximal cliques the rounds start from. The result is those
   * rounds; it passes check(sol), stays within the budget, lists its groups
   * largest first, and stops short of the budget only once every node of
   * every maximal clique is locked.
   */
  method SolveBruteForce(g: Graph, maxNumber: int) returns (sol: seq<seq<int>>, ghost pool: seq<seq<int>>)
    requires WellFormed(g)
    ensures forall c :: c in pool ==> MaximalClique(g, c) && Increasing(c)
    ensures forall c :: MaximalClique(g, c) && Increasing(c) ==> c in pool
    ensures sol == Pack(pool, [], maxNumber)
    ensures ValidSolution(g, sol)
    ensures sol == [] || |Flatten(sol)| <= maxNumber
    ensures forall a, b :: 0 <= a < b < |sol| ==> |sol[b]| <= |sol[a]|
    ensures |Flatten(sol)| < maxNumber ==> forall c, y :: c in pool && y in c ==> y in Flatten(sol)
  {
    var current := 0;
    var cliques := ListMaximalCliques(g);
    pool := cliques;
    sol := [];
    ghost var target := Pack(pool, sol, maxNumber);
    while cliques != [] && current < maxNumber
      invariant Packing(g, cliques, sol, current, maxNumber)
      invariant Pack(cliques, sol, maxNumber) == target
      invariant Covered(pool, cliques, Flatten(sol))
      decreases maxNumber - current, |cliques|
    {
      var _, nextCliques, nextSol, nextCurrent := PackRound(g, cliques, sol, current, maxNumber);
      RoundCovers(pool, cliques, sol, RoundPick(cliques, current, maxNumber));
      cliques, sol, current := nextCliques, nextSol, nextCurrent;
    }
    PackDone(target, pool, cliques, sol, current, maxNumber);
  }
}
