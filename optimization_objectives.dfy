/**
 * Objective vectors of the design-space exploration (higher is better on
 * every entry) and weak Pareto dominance between them.
 */
module ParetoObjectives {

  /** The five measures of a solution, as computed by the analysers. */
  datatype Measures = Measures(
    area: real,
    delay: real,
    corruptionEstimate: real,
    corruptibilityEstimate: real,
    pairwiseSecurity: real)

  /** OptimizationObjectives::objective: area and delay negated, so that every entry is to be maximised. */
  function Objective(m: Measures): (r: seq<real>)
    ensures |r| == 5
  {
    [-m.area, -m.delay, m.corruptionEstimate, m.corruptibilityEstimate, m.pairwiseSecurity]
  }

  /** a is at least as good as b on every objective (and they have the same length). */
  predicate Dominates(a: seq<real>, b: seq<real>)
  {
    |a| == |b| && forall i :: 0 <= i < |a| ==> a[i] >= b[i]
  }

  /** paretoDominates: a length check, then a scan that returns at the first worse entry. */
  method ParetoDominates(a: seq<real>, b: seq<real>) returns (r: bool)
    ensures r == Dominates(a, b)
  {
    if |a| != |b| {
      return false;
    }
    for i := 0 to |a|
      invariant forall k :: 0 <= k < i ==> a[k] >= b[k]
    {
      if a[i] < b[i] {
        return false;
      }
    }
    return true;
  }

  lemma DominatesNeedsSameLength(a: seq<real>, b: seq<real>)
    requires |a| != |b|
    ensures !Dominates(a, b) && !Dominates(b, a)
  {}

  /** Dominance is weak: every vector dominates itself. */
  lemma DominatesReflexive(a: seq<real>)
    ensures Dominates(a, a)
  {}

  lemma DominatesTransitive(a: seq<real>, b: seq<real>, c: seq<real>)
    requires Dominates(a, b) && Dominates(b, c)
    ensures Dominates(a, c)
  {}

  /** Two vectors that dominate each other are equal. */
  lemma DominatesAntisymmetric(a: seq<real>, b: seq<real>)
    requires Dominates(a, b) && Dominates(b, a)
    ensures a == b
  {
    assert forall i :: 0 <= i < |a| ==> a[i] == b[i];
  }

  /** On objective vectors: smaller area and delay, larger corruption and security. */
  lemma ObjectiveDominance(m: Measures, n: Measures)
    ensures Dominates(Objective(m), Objective(n)) <==>
      && m.area <= n.area
      && m.delay <= n.delay
      && m.corruptionEstimate >= n.corruptionEstimate
      && m.corruptibilityEstimate >= n.corruptibilityEstimate
      && m.pairwiseSecurity >= n.pairwiseSecurity
  {
    var a, b := Objective(m), Objective(n);
    if m.area <= n.area && m.delay <= n.delay && m.corruptionEstimate >= n.corruptionEstimate
       && m.corruptibilityEstimate >= n.corruptibilityEstimate && m.pairwiseSecurity >= n.pairwiseSecurity {
      forall i | 0 <= i < 5
        ensures a[i] >= b[i]
      {
      }
    }
    if Dominates(a, b) {
      assert a[0] >= b[0] && a[1] >= b[1] && a[2] >= b[2] && a[3] >= b[3] && a[4] >= b[4];
    }
  }
}
