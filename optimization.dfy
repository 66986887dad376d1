/**
 * The Pareto-front exploration: local moves that derive a candidate
 * solution (a list of node indices) from the front, and the front itself,
 * kept free of dominated entries. The random draws of the moves are
 * parameters.
 */
module Optimization {
  import opened Sorting
  import opened ParetoObjectives

  type Solution = seq<int>

  /*
   * Local moves.
   */

  /** MoveInsert: append the drawn node, or give up (empty) if it is already there. */
  function MoveInsert(nbNodes: int, solution: Solution, added: int): (r: Solution)
    requires 0 <= added < nbNodes
    ensures added in solution ==> r == []
    ensures added !in solution ==> r == solution + [added]
  {
    if added in solution then [] else solution + [added]
  }

  /** MoveDelete: remove the element at the drawn position; the empty solution stays empty. */
  function MoveDelete(solution: Solution, deleted: nat): (r: Solution)
    requires solution != [] ==> deleted < |solution|
    ensures solution == [] ==> r == []
    ensures solution != [] ==> |r| == |solution| - 1
    ensures solution != [] ==> multiset(r) + multiset{solution[deleted]} == multiset(solution)
    ensures solution != [] ==> forall i :: 0 <= i < |r| ==> r[i] == solution[if i < deleted then i else i + 1]
  {
    if solution == [] then []
    else
      assert solution == solution[..deleted] + [solution[deleted]] + solution[deleted + 1..];
      solution[..deleted] + solution[deleted + 1..]
  }

  /** MoveSwap: an insertion followed by a deletion in its result. */
  function MoveSwap(nbNodes: int, solution: Solution, added: int, deleted: nat): Solution
    requires 0 <= added < nbNodes && deleted <= |solution|
  {
    MoveDelete(MoveInsert(nbNodes, solution, added), deleted)
  }

  lemma MoveSwapOutcome(nbNodes: int, solution: Solution, added: int, deleted: nat)
    requires 0 <= added < nbNodes && deleted <= |solution|
    ensures added in solution ==> MoveSwap(nbNodes, solution, added, deleted) == []
    ensures added !in solution ==>
      var r := MoveSwap(nbNodes, solution, added, deleted);
      |r| == |solution| && multiset(r) + multiset{(solution + [added])[deleted]} == multiset(solution) + multiset{added}
  {
  }

  datatype Move = Insert | Delete | Swap

  /** The random draws one move makes: the node to add and the position to delete. */
  datatype Draws = Draws(pick: nat, added: int, deleted: nat)

  /** The draws are within the ranges of the uniform distributions the move uses. */
  predicate DrawsFit(mv: Move, nbNodes: int, solution: Solution, d: Draws)
  {
    match mv
    case Insert => 0 <= d.added < nbNodes
    case Delete => solution != [] ==> d.deleted < |solution|
    case Swap => 0 <= d.added < nbNodes && d.deleted <= |solution|
  }

  function ModifySolution(mv: Move, nbNodes: int, solution: Solution, d: Draws): Solution
    requires DrawsFit(mv, nbNodes, solution, d)
  {
    match mv
    case Insert => MoveInsert(nbNodes, solution, d.added)
    case Delete => MoveDelete(solution, d.deleted)
    case Swap => MoveSwap(nbNodes, solution, d.added, d.deleted)
  }

  /** The solution a move starts from: the empty one, or the pool entry drawn. */
  function StartingPoint(pool: seq<Solution>, pick: nat): Solution
    requires pool != [] ==> pick < |pool|
  {
    if pool == [] then [] else pool[pick]
  }

  /** LocalMove::createSolution */
  function CreateSolution(mv: Move, nbNodes: int, pool: seq<Solution>, d: Draws): (r: Solution)
    requires pool != [] ==> d.pick < |pool|
    requires DrawsFit(mv, nbNodes, StartingPoint(pool, d.pick), d)
    ensures pool == [] && mv == Delete ==> r == []
    ensures pool == [] && mv == Insert ==> r == [d.added]
    ensures mv == Insert && r != [] ==> r[..|r| - 1] == StartingPoint(pool, d.pick) && 0 <= r[|r| - 1] < nbNodes
  {
    ModifySolution(mv, nbNodes, StartingPoint(pool, d.pick), d)
  }

  /*
   * The Pareto front.
   */

  datatype ParetoElement = ParetoElement(sol: Solution, obj: seq<real>)

  /** The order of the front after cleanup: by objective vector, then by solution. */
  function ElementLess(a: ParetoElement, b: ParetoElement): bool
  {
    if a.obj != b.obj then LexLess(a.obj, b.obj, RealLess) else LexLess(a.sol, b.sol, IntLess)
  }

  lemma ElementOrder()
    ensures StrictTotalOrder(ElementLess)
  {
    NumberOrders();
    forall a: ParetoElement
      ensures !ElementLess(a, a)
    {
      LexIrreflexive(a.sol, IntLess);
    }
    forall a, b, c | ElementLess(a, b) && ElementLess(b, c)
      ensures ElementLess(a, c)
    {
      ElementTransitive(a, b, c);
    }
    forall a: ParetoElement, b: ParetoElement | a != b
      ensures ElementLess(a, b) || ElementLess(b, a)
    {
      if a.obj != b.obj {
        LexTotal(a.obj, b.obj, RealLess);
      } else {
        LexTotal(a.sol, b.sol, IntLess);
      }
    }
  }

  lemma ElementTransitive(a: ParetoElement, b: ParetoElement, c: ParetoElement)
    requires ElementLess(a, b) && ElementLess(b, c)
    ensures ElementLess(a, c)
  {
    NumberOrders();
    if a.obj != b.obj && b.obj != c.obj {
      LexTransitive(a.obj, b.obj, c.obj, RealLess);
      if a.obj == c.obj {
        LexIrreflexive(a.obj, RealLess);
      }
    } else if a.obj == b.obj && b.obj == c.obj {
      LexTransitive(a.sol, b.sol, c.sol, IntLess);
    }
  }

  /** No member of the front dominates another. */
  ghost predicate NoneDominated(front: seq<ParetoElement>)
  {
    forall i, j :: 0 <= i < |front| && 0 <= j < |front| && i != j ==> !Dominates(front[i].obj, front[j].obj)
  }

  /** The members of the front that obj does not dominate, in order. */
  function Survivors(front: seq<ParetoElement>, obj: seq<real>): seq<ParetoElement>
  {
    if front == [] then []
    else
      Survivors(front[..|front| - 1], obj) + (if Dominates(obj, front[|front| - 1].obj) then [] else [front[|front| - 1]])
  }

  lemma {:induction false} SurvivorsMembers(front: seq<ParetoElement>, obj: seq<real>)
    ensures forall p :: p in Survivors(front, obj) <==> p in front && !Dominates(obj, p.obj)
  {
    if front != [] {
      SurvivorsMembers(front[..|front| - 1], obj);
      assert front == front[..|front| - 1] + [front[|front| - 1]];
    }
  }

  /** Some member of the front dominates obj. */
  ghost predicate DominatedBy(front: seq<ParetoElement>, obj: seq<real>)
  {
    exists i :: 0 <= i < |front| && Dominates(front[i].obj, obj)
  }

  lemma NoneDominatedDistinct(front: seq<ParetoElement>)
    requires NoneDominated(front)
    ensures Distinct(front)
  {
    forall i, j | 0 <= i < j < |front|
      ensures front[i] != front[j]
    {
      DominatesReflexive(front[i].obj);
    }
  }

  /** Distinct members that do not dominate each other, stated on the members rather than on positions. */
  lemma NoneDominatedByMembers(front: seq<ParetoElement>)
    requires Distinct(front)
    requires forall p, q :: p in front && q in front && p != q ==> !Dominates(p.obj, q.obj)
    ensures NoneDominated(front)
  {}

  lemma NoneDominatedMembers(front: seq<ParetoElement>, p: ParetoElement, q: ParetoElement)
    requires NoneDominated(front) && p in front && q in front && p != q
    ensures !Dominates(p.obj, q.obj)
  {}

  /** Sort the solution of every member (the first loop of cleanupParetoFront). */
  method SortSolutions(front: seq<ParetoElement>) returns (r: seq<ParetoElement>)
    ensures SolutionsSorted(front, r)
  {
    NumberOrders();
    r := [];
    for i := 0 to |front|
      invariant |r| == i
      invariant forall k :: 0 <= k < i ==> r[k].obj == front[k].obj
      invariant forall k :: 0 <= k < i ==> SortedBy(r[k].sol, IntLess) && multiset(r[k].sol) == multiset(front[k].sol)
    {
      var s := SortBy(front[i].sol, IntLess);
      r := r + [ParetoElement(s, front[i].obj)];
    }
  }

  class Optimizer {
    /** The number of nodes available for locking. */
    const nbNodes: int
    /** The objective vector of a solution (OptimizationObjectives::objective). */
    const objective: Solution -> seq<real>
    var paretoFront: seq<ParetoElement>

    ghost predicate Valid()
      reads this
    {
      NoneDominated(paretoFront)
    }

    constructor (nbNodes: int, objective: Solution -> seq<real>)
      ensures this.nbNodes == nbNodes && this.objective == objective
      ensures paretoFront == [] && Valid()
    {
      this.nbNodes := nbNodes;
      this.objective := objective;
      paretoFront := [];
    }

    /** paretoFront(): the solutions of the front, in its order. */
    method ParetoFront() returns (r: seq<Solution>)
      ensures |r| == |paretoFront|
      ensures forall i :: 0 <= i < |r| ==> r[i] == paretoFront[i].sol
    {
      r := [];
      for i := 0 to |paretoFront|
        invariant |r| == i
        invariant forall k :: 0 <= k < i ==> r[k] == paretoFront[k].sol
      {
        r := r + [paretoFront[i].sol];
      }
    }

    /** paretoObjectives(): the objective vectors of the front, in the same order. */
    method ParetoObjectives() returns (r: seq<seq<real>>)
      ensures |r| == |paretoFront|
      ensures forall i :: 0 <= i < |r| ==> r[i] == paretoFront[i].obj
    {
      r := [];
      for i := 0 to |paretoFront|
        invariant |r| == i
        invariant forall k :: 0 <= k < i ==> r[k] == paretoFront[k].obj
      {
        r := r + [paretoFront[i].obj];
      }
    }

    /**
     * cleanupParetoFront: sort every solution, then the front by objective
     * vector and then by solution.
     */
    method CleanupParetoFront()
      requires Valid()
      modifies this
      ensures Valid()
      ensures SortedBy(paretoFront, ElementLess)
      ensures forall p :: p in paretoFront ==> SortedBy(p.sol, IntLess)
      ensures exists sorted :: SolutionsSorted(old(paretoFront), sorted) && multiset(paretoFront) == multiset(sorted)
    {
      var sorted := SortSolutions(paretoFront);
      SolutionsSortedKeeps(paretoFront, sorted);
      ElementOrder();
      var r := SortBy(sorted, ElementLess);
      PermutationKeeps(sorted, r);
      paretoFront := r;
    }

    /**
     * tryAddSolution(sol, obj): refused, with the front unchanged, when a
     * member dominates obj; otherwise the members obj dominates are dropped,
     * (sol, obj) is added and the front is cleaned up.
     */
    method TryAddSolutionWith(sol: Solution, obj: seq<real>) returns (added: bool)
      requires Valid()
      modifies this
      ensures Valid()
      ensures added == !DominatedBy(old(paretoFront), obj)
      ensures !added ==> paretoFront == old(paretoFront)
      ensures added ==> AddedTo(old(paretoFront), sol, obj, paretoFront)
    {
      var front := paretoFront;
      var dominated := SomeMemberDominates(front, obj);
      if dominated {
        return false;
      }
      var newPareto := FilterDominated(front, obj);
      var candidates := newPareto + [ParetoElement(sol, obj)];
      AddKeepsNoneDominated(front, sol, obj);
      paretoFront := candidates;
      CleanupParetoFront();
      added := true;
    }

    /** tryAddSolution(sol): the empty solution is refused without being evaluated. */
    method TryAddSolution(sol: Solution) returns (added: bool)
      requires Valid()
      modifies this
      ensures Valid()
      ensures sol == [] ==> !added && paretoFront == old(paretoFront)
      ensures sol != [] ==> added == !DominatedBy(old(paretoFront), objective(sol))
      ensures !added ==> paretoFront == old(paretoFront)
      ensures added ==> AddedTo(old(paretoFront), sol, objective(sol), paretoFront)
    {
      if sol == [] {
        return false;
      }
      added := TryAddSolutionWith(sol, objective(sol));
    }

    /** tryMove: derive a candidate from the current front by the drawn move, and offer it. */
    method TryMove(mv: Move, d: Draws) returns (added: bool)
      requires Valid()
      requires paretoFront != [] ==> d.pick < |paretoFront|
      requires DrawsFit(mv, nbNodes, if paretoFront == [] then [] else paretoFront[d.pick].sol, d)
      modifies this
      ensures Valid()
      ensures var candidate := CreateSolution(mv, nbNodes, Sols(old(paretoFront)), d);
              added == (candidate != [] && !DominatedBy(old(paretoFront), objective(candidate)))
              && (added ==> AddedTo(old(paretoFront), candidate, objective(candidate), paretoFront))
      ensures !added ==> paretoFront == old(paretoFront)
    {
      var pool := ParetoFront();
      assert pool == Sols(paretoFront);
      assert StartingPoint(pool, d.pick) == (if paretoFront == [] then [] else paretoFront[d.pick].sol);
      var candidate := CreateSolution(mv, nbNodes, pool, d);
      added := TryAddSolution(candidate);
    }
  }

  /** The first loop of tryAddSolution: does a member dominate obj? */
  method SomeMemberDominates(front: seq<ParetoElement>, obj: seq<real>) returns (dominated: bool)
    ensures dominated == DominatedBy(front, obj)
  {
    for i := 0 to |front|
      invariant forall k :: 0 <= k < i ==> !Dominates(front[k].obj, obj)
    {
      var d := ParetoDominates(front[i].obj, obj);
      if d {
        return true;
      }
    }
    return false;
  }

  /** The second loop of tryAddSolution: keep the members obj does not dominate. */
  method FilterDominated(front: seq<ParetoElement>, obj: seq<real>) returns (r: seq<ParetoElement>)
    ensures r == Survivors(front, obj)
  {
    r := [];
    for i := 0 to |front|
      invariant r == Survivors(front[..i], obj)
    {
      assert front[..i + 1][..i] == front[..i];
      var d := ParetoDominates(obj, front[i].obj);
      if !d {
        r := r + [front[i]];
      }
    }
    assert front[..|front|] == front;
  }

  /** The solutions of a front, in its order. */
  function Sols(front: seq<ParetoElement>): (r: seq<Solution>)
    ensures |r| == |front| && forall i :: 0 <= i < |r| ==> r[i] == front[i].sol
  {
    seq(|front|, i requires 0 <= i < |front| => front[i].sol)
  }

  /**
   * front2 is the front after (sol, obj) was accepted into front: the members
   * obj dominates are gone, (sol, obj) is in, every solution is sorted and the
   * whole is ordered by objective vector and solution.
   */
  ghost predicate AddedTo(front: seq<ParetoElement>, sol: Solution, obj: seq<real>, front2: seq<ParetoElement>)
  {
    && SortedBy(front2, ElementLess)
    && exists sorted :: SolutionsSorted(Survivors(front, obj) + [ParetoElement(sol, obj)], sorted)
                        && multiset(front2) == multiset(sorted)
  }

  /** sorted is front with each solution sorted. */
  ghost predicate SolutionsSorted(front: seq<ParetoElement>, sorted: seq<ParetoElement>)
  {
    && |sorted| == |front|
    && forall i :: 0 <= i < |front| ==>
         sorted[i].obj == front[i].obj && SortedBy(sorted[i].sol, IntLess) && multiset(sorted[i].sol) == multiset(front[i].sol)
  }

  lemma SolutionsSortedKeeps(front: seq<ParetoElement>, sorted: seq<ParetoElement>)
    requires NoneDominated(front) && SolutionsSorted(front, sorted)
    ensures NoneDominated(sorted) && Distinct(sorted)
    ensures forall p :: p in sorted ==> SortedBy(p.sol, IntLess)
  {
    NoneDominatedDistinct(sorted);
  }

  /** Reordering a front without duplicates keeps it free of domination, and keeps its members. */
  lemma PermutationKeeps(front: seq<ParetoElement>, r: seq<ParetoElement>)
    requires NoneDominated(front) && Distinct(r) && multiset(r) == multiset(front)
    requires forall p :: p in front ==> SortedBy(p.sol, IntLess)
    ensures NoneDominated(r)
    ensures forall p :: p in r ==> SortedBy(p.sol, IntLess)
  {
    forall p, q | p in r && q in r && p != q
      ensures !Dominates(p.obj, q.obj)
    {
      assert p in multiset(front) && q in multiset(front);
      NoneDominatedMembers(front, p, q);
    }
    NoneDominatedByMembers(r);
    forall p | p in r
      ensures SortedBy(p.sol, IntLess)
    {
      assert p in multiset(front);
    }
  }

  /** Adding an undominated entry after dropping what it dominates keeps the front free of domination. */
  lemma AddKeepsNoneDominated(front: seq<ParetoElement>, sol: Solution, obj: seq<real>)
    requires NoneDominated(front) && !DominatedBy(front, obj)
    ensures NoneDominated(Survivors(front, obj) + [ParetoElement(sol, obj)])
  {
    var s := Survivors(front, obj);
    var r := s + [ParetoElement(sol, obj)];
    NoneDominatedDistinct(front);
    SurvivorsDistinct(front, obj);
    SurvivorsMembers(front, obj);
    forall i, j | 0 <= i < |r| && 0 <= j < |r| && i != j
      ensures !Dominates(r[i].obj, r[j].obj)
    {
      if i < |s| && j < |s| {
        assert r[i] in front && r[j] in front;
        assert r[i] != r[j];
        NoneDominatedMembers(front, r[i], r[j]);
      } else if i < |s| {
        assert r[i] in front;
      }
    }
  }

  lemma {:induction false} SurvivorsDistinct(front: seq<ParetoElement>, obj: seq<real>)
    requires Distinct(front)
    ensures Distinct(Survivors(front, obj))
  {
    if front != [] {
      var init := front[..|front| - 1];
      SurvivorsDistinct(init, obj);
      SurvivorsMembers(init, obj);
      assert front[|front| - 1] !in init;
    }
  }
}
