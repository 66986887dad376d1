/**
 * Greedy maximisation of output corruption. Row k of the data holds, for
 * lockable signal k, one 64-lane word per output and test-vector block
 * whose set bits are the corrupted output bits. Ratios that the source
 * returns as floats are kept as integer numerators and denominators.
 */
module OutputCorruption {
  import opened Common
  import opened GreedySelection

  /** A float result of the source, as numerator / denominator. */
  datatype Ratio = Ratio(num: nat, den: nat)

  /** Wordwise OR of two rows of equal length (corr[i] |= data[i]). */
  function OrRows(a: seq<Word>, b: seq<Word>): (r: seq<Word>)
    requires |a| <= |b|
    ensures |r| == |a| && forall i :: 0 <= i < |a| ==> r[i] == a[i] | b[i]
  {
    seq(|a|, i requires 0 <= i < |a| => a[i] | b[i])
  }

  /** The bits of d not already in corr. */
  function NewBits(corr: seq<Word>, d: seq<Word>): (r: seq<Word>)
    requires |corr| == |d|
    ensures |r| == |d| && forall i :: 0 <= i < |d| ==> r[i] == d[i] & !corr[i]
  {
    seq(|d|, i requires 0 <= i < |d| => d[i] & !corr[i])
  }

  /** Rows have at least nbData words, so every row can be read up to the first row's length. */
  ghost predicate RowsCover(data: seq<seq<Word>>, n: nat)
  {
    forall k :: 0 <= k < |data| ==> |data[k]| >= n
  }

  function NbData(data: seq<seq<Word>>): nat
  {
    if data == [] then 0 else |data[0]|
  }

  predicate InRange(sol: seq<int>, nbNodes: nat)
  {
    forall j :: 0 <= j < |sol| ==> 0 <= sol[j] < nbNodes
  }

  /*
   * Popcount loops.
   */

  /** countSet: the total number of set bits of a row. */
  method CountSet(d: seq<Word>) returns (c: nat)
    ensures c == PopCountAll(d)
  {
    c := 0;
    for i := 0 to |d|
      invariant c == PopCountAll(d[..i])
    {
      assert d[..i + 1] == d[..i] + [d[i]];
      PopCountAllAppend(d[..i], d[i]);
      c := c + PopCount(d[i]);
    }
    assert d[..|d|] == d;
  }

  /** additionalCorruption: how many bits of d are not yet covered by corr. */
  method AdditionalCorruption(corr: seq<Word>, d: seq<Word>) returns (c: nat)
    requires |corr| == |d|
    ensures c == PopCountAll(NewBits(corr, d))
  {
    c := 0;
    ghost var nb := NewBits(corr, d);
    for i := 0 to |corr|
      invariant c == PopCountAll(nb[..i])
    {
      assert nb[..i + 1] == nb[..i] + [nb[i]];
      PopCountAllAppend(nb[..i], nb[i]);
      c := c + PopCount(d[i] & !corr[i]);
    }
    assert nb[..|corr|] == nb;
  }

  /*
   * Coverage of a set of rows.
   */

  /** The OR of the selected rows over the first n words. */
  function Cover(data: seq<seq<Word>>, n: nat, sol: seq<int>): (r: seq<Word>)
    requires RowsCover(data, n) && InRange(sol, |data|)
    ensures |r| == n
  {
    if sol == [] then ZeroWords(n) else OrRows(Cover(data, n, sol[..|sol| - 1]), data[sol[|sol| - 1]])
  }

  lemma OrAssoc(a: Word, b: Word, c: Word)
    ensures (a | b) | c == a | (b | c)
  {}

  lemma OrComm(a: Word, b: Word)
    ensures a | b == b | a
  {}

  lemma OrIdem(a: Word, b: Word)
    ensures (a | b) | b == a | b
  {}

  lemma OrZero(a: Word)
    ensures a | 0 == a && 0 | a == a
  {}

  lemma OrSwap(a: Word, b: Word, c: Word)
    ensures (a | b) | c == (a | c) | b
  {}

  /** Word i of the cover of s + t is the OR of the two covers' words. */
  lemma {:induction false} CoverConcat(data: seq<seq<Word>>, n: nat, s: seq<int>, t: seq<int>, i: nat)
    requires RowsCover(data, n) && InRange(s, |data|) && InRange(t, |data|) && i < n
    ensures InRange(s + t, |data|)
    ensures Cover(data, n, s + t)[i] == Cover(data, n, s)[i] | Cover(data, n, t)[i]
    decreases |t|
  {
    if t == [] {
      assert s + t == s;
      OrZero(Cover(data, n, s)[i]);
    } else {
      var t' := t[..|t| - 1];
      assert (s + t)[..|s + t| - 1] == s + t';
      CoverConcat(data, n, s, t', i);
      OrAssoc(Cover(data, n, s)[i], Cover(data, n, t')[i], data[t[|t| - 1]][i]);
    }
  }

  /** A selected row is already part of the cover. */
  lemma {:induction false} CoverAbsorbs(data: seq<seq<Word>>, n: nat, s: seq<int>, x: int, i: nat)
    requires RowsCover(data, n) && InRange(s, |data|) && x in s && i < n
    ensures Cover(data, n, s)[i] | data[x][i] == Cover(data, n, s)[i]
    decreases |s|
  {
    var s' := s[..|s| - 1];
    var last := s[|s| - 1];
    if x == last {
      OrIdem(Cover(data, n, s')[i], data[x][i]);
    } else {
      assert x in s';
      CoverAbsorbs(data, n, s', x, i);
      OrSwap(Cover(data, n, s')[i], data[last][i], data[x][i]);
    }
  }

  lemma {:induction false} CoverAbsorbsAll(data: seq<seq<Word>>, n: nat, s: seq<int>, t: seq<int>, i: nat)
    requires RowsCover(data, n) && InRange(s, |data|) && InRange(t, |data|) && i < n
    requires forall x :: x in t ==> x in s
    ensures Cover(data, n, s)[i] | Cover(data, n, t)[i] == Cover(data, n, s)[i]
    decreases |t|
  {
    if t == [] {
      OrZero(Cover(data, n, s)[i]);
    } else {
      var t' := t[..|t| - 1];
      var x := t[|t| - 1];
      CoverAbsorbsAll(data, n, s, t', i);
      OrAssoc(Cover(data, n, s)[i], Cover(data, n, t')[i], data[x][i]);
      CoverAbsorbs(data, n, s, x, i);
    }
  }

  /** The cover depends only on the set of selected rows: not on their order, nor on repetitions. */
  lemma CoverDependsOnSet(data: seq<seq<Word>>, n: nat, s: seq<int>, t: seq<int>)
    requires RowsCover(data, n) && InRange(s, |data|) && InRange(t, |data|)
    requires forall x :: x in s <==> x in t
    ensures Cover(data, n, s) == Cover(data, n, t)
  {
    forall i | 0 <= i < n
      ensures Cover(data, n, s)[i] == Cover(data, n, t)[i]
    {
      CoverAbsorbsAll(data, n, s, t, i);
      CoverAbsorbsAll(data, n, t, s, i);
      OrComm(Cover(data, n, s)[i], Cover(data, n, t)[i]);
    }
  }

  /** Word-level union bound: an OR has at most the set bits of both operands together. */
  lemma {:induction false} BitsBelowOr(a: Word, b: Word, n: nat)
    requires n <= 64
    ensures BitsBelow(a | b, n) <= BitsBelow(a, n) + BitsBelow(b, n)
  {
    if n > 0 {
      BitsBelowOr(a, b, n - 1);
      BitOr(a, b, (n - 1) as bv6);
    }
  }

  lemma {:induction false} PopCountAllOr(a: seq<Word>, b: seq<Word>)
    requires |a| <= |b|
    ensures PopCountAll(OrRows(a, b)) <= PopCountAll(a) + PopCountAll(b[..|a|])
  {
    if a != [] {
      var n := |a| - 1;
      PopCountAllOr(a[..n], b);
      assert OrRows(a, b)[..n] == OrRows(a[..n], b);
      assert b[..|a|][..n] == b[..n];
      BitsBelowOr(a[n], b[n], 64);
    }
  }

  /** The sum of the rates of the selected rows, repetitions included. */
  function RateSum(data: seq<seq<Word>>, sol: seq<int>): nat
    requires InRange(sol, |data|)
  {
    if sol == [] then 0 else RateSum(data, sol[..|sol| - 1]) + PopCountAll(data[sol[|sol| - 1]])
  }

  /** The numerator of corruptibility never exceeds that of corruptionSum (for rows of the common length). */
  lemma {:induction false} CoverBelowRateSum(data: seq<seq<Word>>, n: nat, sol: seq<int>)
    requires InRange(sol, |data|) && forall k :: 0 <= k < |data| ==> |data[k]| == n
    ensures PopCountAll(Cover(data, n, sol)) <= RateSum(data, sol)
  {
    if sol == [] {
      PopCountAllZero(ZeroWords(n));
    } else {
      var k := sol[|sol| - 1];
      var s' := sol[..|sol| - 1];
      CoverBelowRateSum(data, n, s');
      assert Cover(data, n, sol) == OrRows(Cover(data, n, s'), data[k]);
      assert RateSum(data, sol) == RateSum(data, s') + PopCountAll(data[k]);
      var c', d := Cover(data, n, s'), data[k];
      PopCountAllOr(c', d);
      assert d[..|c'|] == d;
      assert PopCountAll(OrRows(c', d)) <= PopCountAll(c') + PopCountAll(d);
    }
  }

  /** corr |= row, word by word. */
  method OrInto(corr: seq<Word>, row: seq<Word>) returns (r: seq<Word>)
    requires |corr| <= |row|
    ensures r == OrRows(corr, row)
  {
    r := corr;
    for i := 0 to |corr|
      invariant |r| == |corr|
      invariant forall j :: 0 <= j < i ==> r[j] == corr[j] | row[j]
      invariant forall j :: i <= j < |corr| ==> r[j] == corr[j]
    {
      r := r[i := r[i] | row[i]];
    }
  }

  /*
   * getUniqueNodes
   */

  /** Node i has a pattern shared neither with an earlier node nor with a pre-locked one. */
  ghost predicate IsUnique(data: seq<seq<Word>>, pre: seq<int>, i: nat)
    requires i < |data| && InRange(pre, |data|)
  {
    (forall j :: 0 <= j < |pre| ==> data[i] != data[pre[j]]) && (forall j :: 0 <= j < i ==> data[i] != data[j])
  }

  /** The unique nodes below m, in ascending order. */
  ghost function UniqueBelow(data: seq<seq<Word>>, pre: seq<int>, m: nat): (r: seq<nat>)
    requires m <= |data| && InRange(pre, |data|)
    ensures forall x :: x in r ==> x < m
  {
    if m == 0 then [] else UniqueBelow(data, pre, m - 1) + (if IsUnique(data, pre, m - 1) then [m - 1] else [])
  }

  lemma {:induction false} UniqueBelowShape(data: seq<seq<Word>>, pre: seq<int>, m: nat)
    requires m <= |data| && InRange(pre, |data|)
    ensures forall x :: x in UniqueBelow(data, pre, m) <==> 0 <= x < m && IsUnique(data, pre, x)
    ensures forall a, b :: 0 <= a < b < |UniqueBelow(data, pre, m)| ==> UniqueBelow(data, pre, m)[a] < UniqueBelow(data, pre, m)[b]
  {
    if m > 0 {
      UniqueBelowShape(data, pre, m - 1);
      var r := UniqueBelow(data, pre, m - 1);
      forall a, b | 0 <= a < b < |UniqueBelow(data, pre, m)|
        ensures UniqueBelow(data, pre, m)[a] < UniqueBelow(data, pre, m)[b]
      {
        assert UniqueBelow(data, pre, m)[a] == r[a];
        if b == |r| {
          assert r[a] in r;
        }
      }
    }
  }

  /** No two unique nodes share a pattern, and none shares one with a pre-locked node. */
  lemma UniquePatterns(data: seq<seq<Word>>, pre: seq<int>, x: nat, y: nat)
    requires InRange(pre, |data|)
    requires x in UniqueBelow(data, pre, |data|) && y in UniqueBelow(data, pre, |data|) && x != y
    ensures data[x] != data[y]
  {
    UniqueBelowShape(data, pre, |data|);
  }

  /** A pre-locked node is never unique: its pattern equals its own. */
  lemma UniqueNotPreLocked(data: seq<seq<Word>>, pre: seq<int>, x: nat)
    requires InRange(pre, |data|) && x in UniqueBelow(data, pre, |data|)
    ensures x !in pre
  {
    UniqueBelowShape(data, pre, |data|);
    forall j | 0 <= j < |pre|
      ensures pre[j] != x
    {
      assert data[x] != data[pre[j]];
    }
  }

  /*
   * Greedy selection.
   */

  /** rates holds the popcount of every row (corruptionRate_). */
  predicate RatesOf(data: seq<seq<Word>>, rates: seq<nat>)
  {
    |rates| == |data| && forall k {:trigger rates[k]} :: 0 <= k < |data| ==> rates[k] == PopCountAll(data[k])
  }

  /** Rows all have the length of the first one (what check() tests). */
  predicate Consistent(data: seq<seq<Word>>)
  {
    forall k :: 0 <= k < |data| ==> |data[k]| == NbData(data)
  }

  /** The score of a candidate: the cover it would add, then its total rate. */
  datatype Score = Score(cover: nat, rate: nat)

  /** a is lexicographically above b. */
  predicate Beats(a: Score, b: Score)
  {
    a.cover > b.cover || (a.cover == b.cover && a.rate > b.rate)
  }

  /**
   * The score of candidate k once the rows in picked are covered: the bits
   * of row k not yet covered, then all bits of row k (zero outside the data).
   */
  function ScoreOf(data: seq<seq<Word>>, picked: seq<nat>, k: nat): Score
  {
    if Consistent(data) && InRange(picked, |data|) && k < |data| then
      Score(PopCountAll(NewBits(Cover(data, NbData(data), picked), data[k])), PopCountAll(data[k]))
    else Score(0, 0)
  }

  /** solveGreedy's scoring: additionalCorruption, then corruptionRate_. */
  function Scoring(data: seq<seq<Word>>): (seq<nat>, nat) -> Score
  {
    (picked: seq<nat>, k: nat) => ScoreOf(data, picked, k)
  }

  predicate Nodes(data: seq<seq<Word>>, cands: seq<nat>)
  {
    forall x :: x in cands ==> x < |data|
  }

  function Scores(score: (seq<nat>, nat) -> Score, picked: seq<nat>, cands: seq<nat>): (sc: seq<Score>)
    ensures |sc| == |cands| && forall j :: 0 <= j < |cands| ==> sc[j] == score(picked, cands[j])
  {
    seq(|cands|, j requires 0 <= j < |cands| => score(picked, cands[j]))
  }

  /** The position of the first lexicographically largest score. */
  function FirstBest(sc: seq<Score>): (p: nat)
    requires sc != []
    ensures p < |sc|
  {
    if |sc| == 1 then 0
    else
      var q := FirstBest(sc[..|sc| - 1]);
      if Beats(sc[|sc| - 1], sc[q]) then |sc| - 1 else q
  }

  /** Nothing beats the pick, and it beats everything before it. */
  lemma {:induction false} FirstBestIsBest(sc: seq<Score>)
    requires sc != []
    ensures forall j :: 0 <= j < |sc| ==> !Beats(sc[j], sc[FirstBest(sc)])
    ensures forall j :: 0 <= j < FirstBest(sc) ==> Beats(sc[FirstBest(sc)], sc[j])
  {
    if |sc| > 1 {
      var init := sc[..|sc| - 1];
      FirstBestIsBest(init);
      assert forall j :: 0 <= j < |init| ==> init[j] == sc[j];
    }
  }

  /** The scan of solveGreedy's inner loop: start from (0, 0) and the first candidate; replace on strict improvement. */
  method ScanScores(sc: seq<Score>) returns (p: nat)
    requires sc != []
    ensures p == FirstBest(sc)
  {
    var best := Score(0, 0);
    p := 0;
    for i := 0 to |sc|
      invariant i == 0 ==> best == Score(0, 0) && p == 0
      invariant i > 0 ==> p == FirstBest(sc[..i]) && best == sc[p]
    {
      assert sc[..i + 1][..i] == sc[..i];
      if Beats(sc[i], best) {
        best := sc[i];
        p := i;
      }
    }
    assert sc[..|sc|] == sc;
  }

  /** The best candidate: the first with the largest score. */
  function PickOf(score: (seq<nat>, nat) -> Score, picked: seq<nat>, cands: seq<nat>): (k: nat)
    ensures cands != [] ==> k in cands
  {
    if cands == [] then 0 else cands[FirstBest(Scores(score, picked, cands))]
  }

  /** No candidate scores above the pick, and every candidate listed before it scores below it. */
  lemma PickOfIsBest(score: (seq<nat>, nat) -> Score, picked: seq<nat>, cands: seq<nat>)
    requires cands != []
    ensures forall j :: 0 <= j < |cands| ==> !Beats(score(picked, cands[j]), score(picked, PickOf(score, picked, cands)))
    ensures var p := FirstBest(Scores(score, picked, cands));
      && cands[p] == PickOf(score, picked, cands)
      && forall j :: 0 <= j < p ==> Beats(score(picked, cands[p]), score(picked, cands[j]))
  {
    FirstBestIsBest(Scores(score, picked, cands));
  }

  /** solveGreedy's choice of the next node, given the nodes picked so far and the candidates left. */
  function BestPick(data: seq<seq<Word>>): (seq<nat>, seq<nat>) -> nat
  {
    (picked: seq<nat>, cands: seq<nat>) => PickOf(Scoring(data), picked, cands)
  }

  /** pick agrees with solveGreedy's choice on every input. */
  ghost predicate IsBestPick(data: seq<seq<Word>>, pick: (seq<nat>, seq<nat>) -> nat)
  {
    forall picked, cands {:trigger PickOf(Scoring(data), picked, cands)} :: pick(picked, cands) == PickOf(Scoring(data), picked, cands)
  }

  lemma BestPickIsBestPick(data: seq<seq<Word>>)
    ensures IsBestPick(data, BestPick(data))
  {
  }

  lemma BestPickPicksCandidate(data: seq<seq<Word>>)
    ensures PicksCandidate(BestPick(data))
  {
    forall picked, cands | cands != []
      ensures BestPick(data)(picked, cands) in cands
    {
      assert BestPick(data)(picked, cands) == PickOf(Scoring(data), picked, cands);
    }
  }

  /** solveGreedy's inner loop, measuring each candidate with additionalCorruption and corruptionRate_. */
  method PickBest(data: seq<seq<Word>>, rates: seq<nat>, picked: seq<nat>, corr: seq<Word>, cands: seq<nat>, ghost pick: (seq<nat>, seq<nat>) -> nat)
    returns (bestK: nat)
    requires Consistent(data) && InRange(picked, |data|) && corr == Cover(data, NbData(data), picked)
    requires Nodes(data, cands) && cands != []
    requires RatesOf(data, rates) && IsBestPick(data, pick)
    ensures bestK == pick(picked, cands) && bestK in cands
  {
    var sc: seq<Score> := [];
    for i := 0 to |cands|
      invariant sc == Scores(Scoring(data), picked, cands[..i])
    {
      var k := cands[i];
      assert k in cands;
      var cover := AdditionalCorruption(corr, data[k]);
      assert Score(cover, rates[k]) == Scoring(data)(picked, k);
      assert cands[..i + 1] == cands[..i] + [k];
      sc := sc + [Score(cover, rates[k])];
    }
    assert cands[..|cands|] == cands;
    var p := ScanScores(sc);
    bestK := cands[p];
    assert bestK == PickOf(Scoring(data), picked, cands);
  }

  /** The number of greedy rounds: from |preLocked| up to min(nbNodes, maxNumber). */
  function Rounds(nbNodes: nat, maxNumber: int, nbPre: nat): nat
  {
    var limit := if nbNodes <= maxNumber then nbNodes else maxNumber;
    if limit <= nbPre then 0 else limit - nbPre
  }

  /**
   * The optimiser over fixed corruption data. Its state never changes after
   * construction, so every query is a method without side effects.
   */
  class OutputCorruptionOptimizer {
    const data: seq<seq<Word>>
    const rates: seq<nat>

    /** corruptionRate_ holds the popcount of every row. */
    predicate Valid()
    {
      RatesOf(data, rates)
    }

    constructor (data: seq<seq<Word>>)
      ensures this.data == data && Valid()
    {
      var r: seq<nat> := [];
      for k := 0 to |data|
        invariant |r| == k && forall j :: 0 <= j < k ==> r[j] == PopCountAll(data[j])
      {
        var c := CountSet(data[k]);
        r := r + [c];
      }
      this.data := data;
      this.rates := r;
    }

    /** check(): throws unless every row has the length of the first. */
    method Check() returns (r: Result<()>)
      ensures r.Ok? <==> Consistent(data)
    {
      for k := 0 to |data|
        invariant forall j :: 0 <= j < k ==> |data[j]| == NbData(data)
      {
        if |data[k]| != |data[0]| {
          return Err("Inconsistent output corruption data size");
        }
      }
      return Ok(());
    }

    /** check(sol): throws on an index outside [0, nbNodes). */
    method CheckSolution(sol: seq<int>) returns (r: Result<()>)
      ensures r.Ok? <==> InRange(sol, |data|)
    {
      for j := 0 to |sol|
        invariant InRange(sol[..j], |data|)
      {
        if sol[j] < 0 || sol[j] >= |data| {
          return Err("Solution inconsistent with number of nodes");
        }
      }
      assert sol[..|sol|] == sol;
      return Ok(());
    }

    /** corruptibility: the set bits of the union of the selected rows, over all bits. */
    method Corruptibility(sol: seq<int>) returns (r: Result<Ratio>)
      requires RowsCover(data, NbData(data))
      ensures !InRange(sol, |data|) ==> r.Err?
      ensures InRange(sol, |data|) ==> r == Ok(Ratio(PopCountAll(Cover(data, NbData(data), sol)), 64 * NbData(data)))
    {
      var ok := CheckSolution(sol);
      if ok.Err? {
        return Err(ok.msg);
      }
      var n := NbData(data);
      var corr := ZeroWords(n);
      for j := 0 to |sol|
        invariant InRange(sol[..j], |data|)
        invariant corr == Cover(data, n, sol[..j])
      {
        assert sol[..j + 1][..j] == sol[..j];
        corr := OrInto(corr, data[sol[j]]);
      }
      assert sol[..|sol|] == sol;
      var c := CountSet(corr);
      return Ok(Ratio(c, 64 * n));
    }

    /** corruptionSum: the rates of the selected rows added up, repetitions included. */
    method CorruptionSum(sol: seq<int>) returns (r: Result<Ratio>)
      requires Valid()
      ensures !InRange(sol, |data|) ==> r.Err?
      ensures InRange(sol, |data|) ==> r == Ok(Ratio(RateSum(data, sol), 64 * NbData(data)))
    {
      var ok := CheckSolution(sol);
      if ok.Err? {
        return Err(ok.msg);
      }
      var count := 0;
      for j := 0 to |sol|
        invariant InRange(sol[..j], |data|)
        invariant count == RateSum(data, sol[..j])
      {
        assert sol[..j + 1][..j] == sol[..j];
        count := count + rates[sol[j]];
      }
      assert sol[..|sol|] == sol;
      return Ok(Ratio(count, 64 * NbData(data)));
    }

    /** getUniqueNodes(preLocked) */
    method GetUniqueNodes(pre: seq<int>) returns (nodes: seq<nat>)
      requires InRange(pre, |data|)
      ensures nodes == UniqueBelow(data, pre, |data|)
    {
      nodes := [];
      for i := 0 to |data|
        invariant nodes == UniqueBelow(data, pre, i)
      {
        var hasEquivalent := false;
        for j := 0 to |pre|
          invariant hasEquivalent <==> exists m :: 0 <= m < j && data[i] == data[pre[m]]
        {
          if data[i] == data[pre[j]] {
            hasEquivalent := true;
          }
        }
        for j := 0 to i
          invariant hasEquivalent <==> (exists m :: 0 <= m < |pre| && data[i] == data[pre[m]]) || (exists m :: 0 <= m < j && data[i] == data[m])
        {
          if data[i] == data[j] {
            hasEquivalent := true;
          }
        }
        if !hasEquivalent {
          nodes := nodes + [i];
        }
      }
    }

    /**
     * solveGreedy(maxNumber, preLocked): preLocked, followed by greedy picks
     * among the unique nodes. The coverage starts empty: the pre-locked rows
     * are not counted as covered.
     */
    method SolveGreedy(maxNumber: int, pre: seq<int>) returns (r: Result<seq<int>>)
      requires Valid() && Consistent(data)
      ensures !InRange(pre, |data|) ==> r.Err?
      ensures InRange(pre, |data|) ==>
        r == Ok(pre + Greedy(BestPick(data), UniqueBelow(data, pre, |data|), [], Rounds(|data|, maxNumber, |pre|)))
    {
      var ok := CheckSolution(pre);
      if ok.Err? {
        return Err(ok.msg);
      }
      var remaining := GetUniqueNodes(pre);
      UniqueBelowShape(data, pre, |data|);
      BestPickIsBestPick(data);
      var picks := GreedyRounds(data, rates, remaining, Rounds(|data|, maxNumber, |pre|), BestPick(data));
      var sol := pre + picks;
      return Ok(sol);
    }
  }

  /** solveGreedy's outer loop: `steps` rounds from an empty coverage, stopping early when no candidate is left. */
  method GreedyRounds(data: seq<seq<Word>>, rates: seq<nat>, cands: seq<nat>, steps: nat, ghost pick: (seq<nat>, seq<nat>) -> nat)
    returns (picks: seq<nat>)
    requires Consistent(data) && Nodes(data, cands) && IsBestPick(data, pick)
    requires RatesOf(data, rates)
    ensures picks == Greedy(pick, cands, [], steps)
  {
    picks := [];
    var remaining: seq<nat> := cands;
    var corr := ZeroWords(NbData(data));
    var left := steps;
    while left > 0
      invariant Nodes(data, remaining) && InRange(picks, |data|) && corr == Cover(data, NbData(data), picks)
      invariant Greedy(pick, remaining, picks, left) == Greedy(pick, cands, [], steps)
    {
      if remaining == [] {
        break;
      }
      var bestK := PickBest(data, rates, picks, corr, remaining, pick);
      var rest := RemoveAll(remaining, bestK);
      forall x | x in rest
        ensures x < |data|
      {
        RemoveAllMember(remaining, bestK, x);
      }
      GreedyStep(pick, remaining, picks, left, bestK);
      corr := OrInto(corr, data[bestK]);
      picks, remaining, left := picks + [bestK], rest, left - 1;
    }
  }

  /** The greedy result: preLocked first, then distinct unique nodes, within the size bound. */
  lemma GreedyResult(data: seq<seq<Word>>, maxNumber: int, pre: seq<int>)
    requires Consistent(data) && InRange(pre, |data|)
    ensures var g := Greedy(BestPick(data), UniqueBelow(data, pre, |data|), [], Rounds(|data|, maxNumber, |pre|));
      && (forall x :: x in g ==> x in UniqueBelow(data, pre, |data|) && x !in pre)
      && (forall a, b :: 0 <= a < b < |g| ==> g[a] != g[b])
      && |pre + g| <= (if |pre| >= |data| || |pre| >= maxNumber then |pre| else if |data| <= maxNumber then |data| else maxNumber)
  {
    var u := UniqueBelow(data, pre, |data|);
    var g := Greedy(BestPick(data), u, [], Rounds(|data|, maxNumber, |pre|));
    UniqueBelowShape(data, pre, |data|);
    BestPickPicksCandidate(data);
    GreedyKeepsPicked(BestPick(data), u, [], Rounds(|data|, maxNumber, |pre|));
    GreedyAddsCandidates(BestPick(data), u, [], Rounds(|data|, maxNumber, |pre|));
    GreedyAddsDistinct(BestPick(data), u, [], Rounds(|data|, maxNumber, |pre|));
    forall x | x in g
      ensures x !in pre
    {
      UniqueNotPreLocked(data, pre, x);
    }
  }
}
