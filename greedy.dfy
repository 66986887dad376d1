/**
 * The round structure of output_corruption_optimizer.cpp's greedy solver,
 * independent of how the next node is chosen: every round picks a node from
 * the candidates left, appends it to the solution and removes it from the
 * candidates.
 */
module GreedySelection {
  /** A rule for the next pick that always picks one of the candidates. */
  ghost predicate PicksCandidate(pick: (seq<nat>, seq<nat>) -> nat)
  {
    forall picked, cands {:trigger pick(picked, cands)} :: cands != [] ==> pick(picked, cands) in cands
  }

  /** Every occurrence of k removed (remaining.erase(std::remove(...))). */
  function RemoveAll(s: seq<nat>, k: nat): (r: seq<nat>)
    ensures |r| <= |s|
  {
    if s == [] then [] else (if s[0] == k then [] else [s[0]]) + RemoveAll(s[1..], k)
  }

  /** What RemoveAll keeps: exactly the members of s other than k. */
  lemma {:induction false} RemoveAllMember(s: seq<nat>, k: nat, x: nat)
    ensures x in RemoveAll(s, k) <==> x in s && x != k
  {
    if s != [] {
      RemoveAllMember(s[1..], k, x);
      assert s == [s[0]] + s[1..];
    }
  }

  /**
   * `steps` greedy rounds from the given candidates: each round appends the
   * pick to picked and removes it from the candidates; the rounds stop early
   * when no candidate is left.
   */
  function Greedy(pick: (seq<nat>, seq<nat>) -> nat, cands: seq<nat>, picked: seq<nat>, steps: nat): seq<nat>
    decreases steps
  {
    if steps == 0 || cands == [] then picked
    else
      var k := pick(picked, cands);
      Greedy(pick, RemoveAll(cands, k), picked + [k], steps - 1)
  }

  /** One round of Greedy. */
  lemma GreedyStep(pick: (seq<nat>, seq<nat>) -> nat, cands: seq<nat>, picked: seq<nat>, steps: nat, k: nat)
    requires steps > 0 && cands != [] && k == pick(picked, cands)
    ensures Greedy(pick, cands, picked, steps) == Greedy(pick, RemoveAll(cands, k), picked + [k], steps - 1)
  {
  }

  /** The rounds keep what was picked before and add at most `steps` nodes. */
  lemma {:induction false} GreedyKeepsPicked(pick: (seq<nat>, seq<nat>) -> nat, cands: seq<nat>, picked: seq<nat>, steps: nat)
    ensures |picked| <= |Greedy(pick, cands, picked, steps)| <= |picked| + steps
    ensures forall i :: 0 <= i < |picked| ==> Greedy(pick, cands, picked, steps)[i] == picked[i]
    decreases steps
  {
    if steps > 0 && cands != [] {
      var k := pick(picked, cands);
      var next := picked + [k];
      GreedyKeepsPicked(pick, RemoveAll(cands, k), next, steps - 1);
    }
  }

  /** Every node the rounds add is a candidate. */
  lemma {:induction false} GreedyAddsCandidates(pick: (seq<nat>, seq<nat>) -> nat, cands: seq<nat>, picked: seq<nat>, steps: nat)
    requires PicksCandidate(pick)
    ensures forall i :: |picked| <= i < |Greedy(pick, cands, picked, steps)| ==> Greedy(pick, cands, picked, steps)[i] in cands
    decreases steps
  {
    if steps > 0 && cands != [] {
      var k := pick(picked, cands);
      assert k in cands;
      var rest := RemoveAll(cands, k);
      var next := picked + [k];
      GreedyAddsCandidates(pick, rest, next, steps - 1);
      GreedyKeepsPicked(pick, rest, next, steps - 1);
      var g := Greedy(pick, rest, next, steps - 1);
      forall i | |picked| <= i < |g|
        ensures g[i] in cands
      {
        if i == |picked| {
          assert g[i] == next[i];
        } else {
          RemoveAllMember(cands, k, g[i]);
        }
      }
    }
  }

  /** No node is added twice: each round removes its pick from the candidates. */
  lemma {:induction false} GreedyAddsDistinct(pick: (seq<nat>, seq<nat>) -> nat, cands: seq<nat>, picked: seq<nat>, steps: nat)
    requires PicksCandidate(pick)
    ensures forall a, b :: |picked| <= a < b < |Greedy(pick, cands, picked, steps)| ==>
      Greedy(pick, cands, picked, steps)[a] != Greedy(pick, cands, picked, steps)[b]
    decreases steps
  {
    if steps > 0 && cands != [] {
      var k := pick(picked, cands);
      var rest := RemoveAll(cands, k);
      var next := picked + [k];
      GreedyAddsDistinct(pick, rest, next, steps - 1);
      GreedyAddsCandidates(pick, rest, next, steps - 1);
      GreedyKeepsPicked(pick, rest, next, steps - 1);
      var g := Greedy(pick, rest, next, steps - 1);
      forall a, b | |picked| <= a < b < |g|
        ensures g[a] != g[b]
      {
        if a == |picked| {
          assert g[a] == next[a];
          RemoveAllMember(cands, k, g[b]);
        }
      }
    }
  }
}
