/**
 * Statistics of a locking solution accumulated over test keys. Each update
 * brings the corruption data of one key: one row per output, one 64-lane
 * word per test vector, a set bit meaning a corrupted output value. The
 * percentages the source returns as doubles are exact reals here.
 */
module Statistics {
  import opened Common

  /*
   * Counting corrupted bits.
   */

  /** The number of words in all rows. */
  function TotalWords(rows: seq<seq<Word>>): nat
  {
    if rows == [] then 0 else TotalWords(rows[..|rows| - 1]) + |rows[|rows| - 1]|
  }

  /** The number of set bits in all rows; no more than 64 per word. */
  function TotalSet(rows: seq<seq<Word>>): (c: nat)
    ensures c <= 64 * TotalWords(rows)
  {
    if rows == [] then 0 else TotalSet(rows[..|rows| - 1]) + PopCountAll(rows[|rows| - 1])
  }

  /** 100 * part / whole, and 0 when there is nothing to count. */
  function Percent(part: nat, whole: nat): (r: real)
    requires part <= whole
    ensures 0.0 <= r <= 100.0
    ensures r == 0.0 <==> part == 0
    ensures r == 100.0 <==> 0 < part == whole
  {
    if whole == 0 then 0.0 else 100.0 * (part as real) / (whole as real)
  }

  /** computeCorruption: the percentage of set bits among all bits of the rows. */
  function CorruptionPercent(rows: seq<seq<Word>>): (r: real)
    ensures 0.0 <= r <= 100.0
    ensures r == 0.0 <==> TotalSet(rows) == 0
  {
    Percent(TotalSet(rows), 64 * TotalWords(rows))
  }

  /** computeCorruption's counting loops. */
  method ComputeCorruption(rows: seq<seq<Word>>) returns (r: real)
    ensures r == CorruptionPercent(rows)
  {
    var countSet, countTot := 0, 0;
    for o := 0 to |rows|
      invariant countSet == TotalSet(rows[..o]) && countTot == 64 * TotalWords(rows[..o])
    {
      assert rows[..o + 1][..o] == rows[..o];
      var row := rows[o];
      for i := 0 to |row|
        invariant countSet == TotalSet(rows[..o]) + PopCountAll(row[..i])
        invariant countTot == 64 * (TotalWords(rows[..o]) + i)
      {
        assert row[..i + 1] == row[..i] + [row[i]];
        PopCountAllAppend(row[..i], row[i]);
        countSet := countSet + PopCount(row[i]);
        countTot := countTot + 64;
      }
      assert row[..|row|] == row;
    }
    assert rows[..|rows|] == rows;
    if countTot == 0 {
      return 0.0;
    }
    r := 100.0 * (countSet as real) / (countTot as real);
  }

  /*
   * The checks an update goes through.
   */

  /** nbOutputs rows of nbTestVectors words each. */
  predicate Shaped(rows: seq<seq<Word>>, nbOutputs: nat, nbTestVectors: nat)
  {
    |rows| == nbOutputs && forall o :: 0 <= o < |rows| ==> |rows[o]| == nbTestVectors
  }

  const OutputsMessage := "Corruption update does not have the right number of outputs"
  const TestVectorsMessage := "Corruption update does not have the right number of test vectors"

  /** checkUpdate: the number of rows first, then the length of every row. */
  method CheckUpdate(rows: seq<seq<Word>>, nbOutputs: nat, nbTestVectors: nat) returns (r: Result<()>)
    ensures r.Ok? <==> Shaped(rows, nbOutputs, nbTestVectors)
    ensures |rows| != nbOutputs ==> r == Err(OutputsMessage)
    ensures r.Err? && |rows| == nbOutputs ==> r == Err(TestVectorsMessage)
  {
    if |rows| != nbOutputs {
      return Err(OutputsMessage);
    }
    for o := 0 to |rows|
      invariant forall p :: 0 <= p < o ==> |rows[p]| == nbTestVectors
    {
      if |rows[o]| != nbTestVectors {
        return Err(TestVectorsMessage);
      }
    }
    return Ok(());
  }

  /*
   * The accumulating updates.
   */

  /** Some word of the row is nonzero. */
  predicate RowCorrupted(row: seq<Word>)
  {
    exists i :: 0 <= i < |row| && row[i] != 0
  }

  /** The inner loop of updateOutputCorruptibility: corrupted |= (d != 0). */
  method AnyNonzero(row: seq<Word>) returns (corrupted: bool)
    ensures corrupted <==> RowCorrupted(row)
  {
    corrupted := false;
    for i := 0 to |row|
      invariant corrupted <==> exists j :: 0 <= j < i && row[j] != 0
    {
      corrupted := corrupted || row[i] != 0;
    }
  }

  /** updateOutputCorruptibility: a flag is set by a corrupted row and never cleared. */
  method UpdateOutputFlags(flags: seq<bool>, rows: seq<seq<Word>>) returns (r: seq<bool>)
    requires |rows| == |flags|
    ensures |r| == |flags|
    ensures forall o :: 0 <= o < |r| ==> (r[o] <==> flags[o] || RowCorrupted(rows[o]))
  {
    r := flags;
    for o := 0 to |flags|
      invariant |r| == |flags|
      invariant forall p :: 0 <= p < o ==> (r[p] <==> flags[p] || RowCorrupted(rows[p]))
      invariant forall p :: o <= p < |r| ==> r[p] == flags[p]
    {
      var corrupted := AnyNonzero(rows[o]);
      if corrupted {
        r := r[o := true];
      }
    }
  }

  /** Word w with word i of every row ORed into it, row after row. */
  function Accumulate(w: Word, rows: seq<seq<Word>>, i: nat): Word
    requires forall o :: 0 <= o < |rows| ==> i < |rows[o]|
  {
    if rows == [] then w else Accumulate(w, rows[..|rows| - 1], i) | rows[|rows| - 1][i]
  }

  /** A lane already set in w stays set. */
  lemma {:induction false} AccumulateKeepsBit(w: Word, rows: seq<seq<Word>>, i: nat, k: bv6)
    requires forall p :: 0 <= p < |rows| ==> i < |rows[p]|
    requires Bit(w, k)
    ensures Bit(Accumulate(w, rows, i), k)
  {
    if rows != [] {
      var n := |rows| - 1;
      AccumulateKeepsBit(w, rows[..n], i, k);
      BitOr(Accumulate(w, rows[..n], i), rows[n][i], k);
    }
  }

  /** A lane set in word i of some row is set in the accumulated word. */
  lemma {:induction false} AccumulateHasRowBit(w: Word, rows: seq<seq<Word>>, i: nat, o: nat, k: bv6)
    requires forall p :: 0 <= p < |rows| ==> i < |rows[p]|
    requires o < |rows| && Bit(rows[o][i], k)
    ensures Bit(Accumulate(w, rows, i), k)
  {
    var n := |rows| - 1;
    BitOr(Accumulate(w, rows[..n], i), rows[n][i], k);
    if o < n {
      assert rows[..n][o] == rows[o];
      AccumulateHasRowBit(w, rows[..n], i, o, k);
    }
  }

  /** A lane set in the accumulated word was set in w or in word i of some row. */
  lemma {:induction false} AccumulateAddsOnlyRowBits(w: Word, rows: seq<seq<Word>>, i: nat, k: bv6)
    requires forall p :: 0 <= p < |rows| ==> i < |rows[p]|
    requires Bit(Accumulate(w, rows, i), k)
    ensures Bit(w, k) || exists o :: 0 <= o < |rows| && Bit(rows[o][i], k)
  {
    if rows != [] {
      var n := |rows| - 1;
      var front := rows[..n];
      BitOr(Accumulate(w, front, i), rows[n][i], k);
      if !Bit(rows[n][i], k) {
        AccumulateAddsOnlyRowBits(w, front, i, k);
        if o :| 0 <= o < n && Bit(front[o][i], k) {
          assert rows[o] == front[o];
        }
      }
    }
  }

  /** accumulator[i] |= row[i] for every i. */
  method OrWords(acc: seq<Word>, row: seq<Word>) returns (r: seq<Word>)
    requires |acc| <= |row|
    ensures |r| == |acc| && forall i :: 0 <= i < |acc| ==> r[i] == acc[i] | row[i]
  {
    r := acc;
    for i := 0 to |acc|
      invariant |r| == |acc|
      invariant forall j :: 0 <= j < i ==> r[j] == acc[j] | row[j]
      invariant forall j :: i <= j < |acc| ==> r[j] == acc[j]
    {
      r := r[i := r[i] | row[i]];
    }
  }

  /** updateTestCorruptibility: every test word accumulates word i of every row. */
  method UpdateTestWords(tests: seq<Word>, rows: seq<seq<Word>>) returns (r: seq<Word>)
    requires Shaped(rows, |rows|, |tests|)
    ensures |r| == |tests|
    ensures forall i :: 0 <= i < |r| ==> r[i] == Accumulate(tests[i], rows, i)
  {
    r := tests;
    for o := 0 to |rows|
      invariant |r| == |tests|
      invariant forall i :: 0 <= i < |r| ==> r[i] == Accumulate(tests[i], rows[..o], i)
    {
      assert rows[..o + 1][..o] == rows[..o];
      r := OrWords(r, rows[o]);
    }
    assert rows[..|rows|] == rows;
  }

  /** updateCorruptibility: every entry of the table accumulates the matching word. */
  method UpdateTable(table: seq<seq<Word>>, rows: seq<seq<Word>>, nbTestVectors: nat) returns (r: seq<seq<Word>>)
    requires Shaped(table, |table|, nbTestVectors) && Shaped(rows, |table|, nbTestVectors)
    ensures Shaped(r, |table|, nbTestVectors)
    ensures forall o, t :: 0 <= o < |r| && 0 <= t < nbTestVectors ==> r[o][t] == table[o][t] | rows[o][t]
  {
    r := table;
    for o := 0 to |table|
      invariant Shaped(r, |table|, nbTestVectors)
      invariant forall p, t :: 0 <= p < o && 0 <= t < nbTestVectors ==> r[p][t] == table[p][t] | rows[p][t]
      invariant forall p :: o <= p < |r| ==> r[p] == table[p]
    {
      var line := OrWords(r[o], rows[o]);
      r := r[o := line];
    }
  }

  /*
   * Aggregates over the per-key corruption.
   */

  function Sum(cs: seq<real>): real
  {
    if cs == [] then 0.0 else Sum(cs[..|cs| - 1]) + cs[|cs| - 1]
  }

  /** Every per-key corruption is a percentage. */
  predicate Percentages(cs: seq<real>)
  {
    forall i :: 0 <= i < |cs| ==> 0.0 <= cs[i] <= 100.0
  }

  lemma {:induction false} SumBounds(cs: seq<real>)
    requires Percentages(cs)
    ensures 0.0 <= Sum(cs) <= 100.0 * (|cs| as real)
  {
    if cs != [] {
      SumBounds(cs[..|cs| - 1]);
    }
  }

  function Min(a: real, b: real): real { if a <= b then a else b }
  function Max(a: real, b: real): real { if a >= b then a else b }

  /** Zeroed tables of the given shape. */
  function ZeroTable(nbOutputs: nat, nbTestVectors: nat): (t: seq<seq<Word>>)
    ensures Shaped(t, nbOutputs, nbTestVectors)
    ensures forall o, i :: 0 <= o < nbOutputs && 0 <= i < nbTestVectors ==> t[o][i] == 0
  {
    seq(nbOutputs, o => seq(nbTestVectors, i => 0))
  }

  /** The number of set flags. */
  function CountTrue(flags: seq<bool>): (c: nat)
    ensures c <= |flags|
  {
    if flags == [] then 0 else CountTrue(flags[..|flags| - 1]) + (if flags[|flags| - 1] then 1 else 0)
  }

  /** LogicLockingStatistics: the tables are updated in place, one key at a time. */
  class LogicLockingStatistics {
    var nbOutputs: nat
    var nbTestVectors: nat
    var nbKeys: nat
    /** Whether an output has been corrupted yet. */
    var outputCorruptibility: seq<bool>
    /** Which lanes of each test vector have been corrupted yet, on any output. */
    var testCorruptibility: seq<Word>
    /** Which lanes of each output and test vector have been corrupted yet. */
    var corruptibility: seq<seq<Word>>
    /** The corruption obtained with each key. */
    var corruptionPerKey: seq<real>

    /** The table shapes every operation keeps (what reset establishes). */
    predicate Shapes()
      reads this
    {
      && |outputCorruptibility| == nbOutputs
      && |testCorruptibility| == nbTestVectors
      && Shaped(corruptibility, nbOutputs, nbTestVectors)
      && Percentages(corruptionPerKey)
    }

    /** What check() accepts: the shapes and one corruption value per key. */
    predicate Consistent()
      reads this
    {
      && |outputCorruptibility| == nbOutputs
      && |corruptibility| == nbOutputs
      && (forall o :: 0 <= o < |corruptibility| ==> |corruptibility[o]| == nbTestVectors)
      && |corruptionPerKey| == nbKeys
    }

    constructor(nbOutputs: nat, nbTestVectors: nat)
      ensures Shapes() && Consistent()
      ensures this.nbOutputs == nbOutputs && this.nbTestVectors == nbTestVectors && nbKeys == 0
      ensures outputCorruptibility == Falses(nbOutputs)
      ensures testCorruptibility == ZeroWords(nbTestVectors)
      ensures corruptibility == ZeroTable(nbOutputs, nbTestVectors)
      ensures corruptionPerKey == []
    {
      this.nbOutputs := nbOutputs;
      this.nbTestVectors := nbTestVectors;
      nbKeys := 0;
      outputCorruptibility := Falses(nbOutputs);
      testCorruptibility := ZeroWords(nbTestVectors);
      corruptibility := ZeroTable(nbOutputs, nbTestVectors);
      corruptionPerKey := [];
    }

    /** reset as written: the per-key corruption values are kept. */
    method Reset(nbOutputs: nat, nbTestVectors: nat)
      requires Shapes()
      modifies this
      ensures Shapes()
      ensures this.nbOutputs == nbOutputs && this.nbTestVectors == nbTestVectors && nbKeys == 0
      ensures outputCorruptibility == Falses(nbOutputs)
      ensures testCorruptibility == ZeroWords(nbTestVectors)
      ensures corruptibility == ZeroTable(nbOutputs, nbTestVectors)
      ensures corruptionPerKey == old(corruptionPerKey)
      ensures Consistent() <==> old(corruptionPerKey) == []
    {
      this.nbOutputs := nbOutputs;
      this.nbTestVectors := nbTestVectors;
      nbKeys := 0;
      outputCorruptibility := Falses(nbOutputs);
      testCorruptibility := ZeroWords(nbTestVectors);
      corruptibility := ZeroTable(nbOutputs, nbTestVectors);
    }

    /** reset as intended: every statistic starts again, so check() holds afterwards. */
    method ResetAll(nbOutputs: nat, nbTestVectors: nat)
      modifies this
      ensures Shapes() && Consistent()
      ensures this.nbOutputs == nbOutputs && this.nbTestVectors == nbTestVectors && nbKeys == 0
      ensures outputCorruptibility == Falses(nbOutputs)
      ensures testCorruptibility == ZeroWords(nbTestVectors)
      ensures corruptibility == ZeroTable(nbOutputs, nbTestVectors)
      ensures corruptionPerKey == []
    {
      this.nbOutputs := nbOutputs;
      this.nbTestVectors := nbTestVectors;
      nbKeys := 0;
      outputCorruptibility := Falses(nbOutputs);
      testCorruptibility := ZeroWords(nbTestVectors);
      corruptibility := ZeroTable(nbOutputs, nbTestVectors);
      corruptionPerKey := [];
    }

    /**
     * update: rejected data changes nothing; accepted data adds one key,
     * its corruption value, and ORs its bits into every table.
     */
    method Update(rows: seq<seq<Word>>) returns (r: Result<()>)
      requires Shapes()
      modifies this
      ensures Shapes()
      ensures r.Ok? <==> Shaped(rows, nbOutputs, nbTestVectors)
      ensures r.Err? ==> unchanged(this)
      ensures r.Ok? ==> nbOutputs == old(nbOutputs) && nbTestVectors == old(nbTestVectors)
      ensures r.Ok? ==> nbKeys == old(nbKeys) + 1 && corruptionPerKey == old(corruptionPerKey) + [CorruptionPercent(rows)]
      ensures r.Ok? ==> forall o :: 0 <= o < nbOutputs ==>
        (outputCorruptibility[o] <==> old(outputCorruptibility[o]) || RowCorrupted(rows[o]))
      ensures r.Ok? ==> forall i :: 0 <= i < nbTestVectors ==>
        testCorruptibility[i] == Accumulate(old(testCorruptibility[i]), rows, i)
      ensures r.Ok? ==> forall o, t :: 0 <= o < nbOutputs && 0 <= t < nbTestVectors ==>
        corruptibility[o][t] == old(corruptibility[o][t]) | rows[o][t]
      ensures old(Consistent()) ==> Consistent()
    {
      r := CheckUpdate(rows, nbOutputs, nbTestVectors);
      if r.Err? {
        return;
      }
      var c := ComputeCorruption(rows);
      corruptionPerKey := corruptionPerKey + [c];
      outputCorruptibility := UpdateOutputFlags(outputCorruptibility, rows);
      testCorruptibility := UpdateTestWords(testCorruptibility, rows);
      corruptibility := UpdateTable(corruptibility, rows, nbTestVectors);
      nbKeys := nbKeys + 1;
    }

    /** check: the table sizes, then one corruption value per key. */
    method Check() returns (r: Result<()>)
      ensures r.Ok? <==> Consistent()
    {
      if |outputCorruptibility| != nbOutputs || |corruptibility| != nbOutputs {
        return Err("Inconsistent stats");
      }
      for o := 0 to |corruptibility|
        invariant forall p :: 0 <= p < o ==> |corruptibility[p]| == nbTestVectors
      {
        if |corruptibility[o]| != nbTestVectors {
          return Err("Inconsistent stats");
        }
      }
      if |corruptionPerKey| != nbKeys {
        return Err("Inconsistent stats");
      }
      return Ok(());
    }

    /** corruptibility(): the share of output and test-vector lanes any key corrupted. */
    method Corruptibility() returns (r: real)
      ensures r == CorruptionPercent(corruptibility)
      ensures 0.0 <= r <= 100.0
    {
      r := ComputeCorruption(corruptibility);
    }

    /** testCorruptibility(): the share of test lanes corrupted on some output by some key. */
    method TestCorruptibility() returns (r: real)
      ensures r == CorruptionPercent([testCorruptibility])
      ensures 0.0 <= r <= 100.0
    {
      r := ComputeCorruption([testCorruptibility]);
    }

    /** outputCorruptibility(): the share of outputs any key corrupted; 0 without outputs. */
    method OutputCorruptibility() returns (r: real)
      requires Shapes()
      ensures r == Percent(CountTrue(outputCorruptibility), nbOutputs)
      ensures r == 100.0 <==> nbOutputs > 0 && forall o :: 0 <= o < nbOutputs ==> outputCorruptibility[o]
    {
      var nb := 0;
      for i := 0 to nbOutputs
        invariant nb == CountTrue(outputCorruptibility[..i])
      {
        assert outputCorruptibility[..i + 1][..i] == outputCorruptibility[..i];
        if outputCorruptibility[i] {
          nb := nb + 1;
        }
      }
      assert outputCorruptibility[..nbOutputs] == outputCorruptibility;
      CountTrueAll(outputCorruptibility);
      if nbOutputs == 0 {
        return 0.0;
      }
      r := 100.0 * (nb as real) / (nbOutputs as real);
    }

    /** corruption(): the mean per-key corruption, dividing by nbKeys; 0 without keys. */
    method Corruption() returns (r: real)
      requires Shapes()
      ensures nbKeys == 0 ==> r == 0.0
      ensures nbKeys > 0 ==> r == Sum(corruptionPerKey) / (nbKeys as real)
      ensures Consistent() ==> 0.0 <= r <= 100.0
    {
      var mean := 0.0;
      for i := 0 to |corruptionPerKey|
        invariant mean == Sum(corruptionPerKey[..i])
      {
        assert corruptionPerKey[..i + 1][..i] == corruptionPerKey[..i];
        mean := mean + corruptionPerKey[i];
      }
      assert corruptionPerKey[..|corruptionPerKey|] == corruptionPerKey;
      if nbKeys == 0 {
        return 0.0;
      }
      r := mean / (nbKeys as real);
      if Consistent() {
        SumBounds(corruptionPerKey);
        MeanBounds(mean, nbKeys);
      }
    }

    /** corruptionMin(): the smallest per-key corruption, 100 without keys. */
    method CorruptionMin() returns (r: real)
      ensures r <= 100.0
      ensures forall i :: 0 <= i < |corruptionPerKey| ==> r <= corruptionPerKey[i]
      ensures r == 100.0 || r in corruptionPerKey
    {
      r := 100.0;
      for i := 0 to |corruptionPerKey|
        invariant r <= 100.0
        invariant forall j :: 0 <= j < i ==> r <= corruptionPerKey[j]
        invariant r == 100.0 || r in corruptionPerKey[..i]
      {
        r := Min(r, corruptionPerKey[i]);
      }
    }

    /** corruptionMax(): the largest per-key corruption, 0 without keys. */
    method CorruptionMax() returns (r: real)
      ensures r >= 0.0
      ensures forall i :: 0 <= i < |corruptionPerKey| ==> corruptionPerKey[i] <= r
      ensures r == 0.0 || r in corruptionPerKey
    {
      r := 0.0;
      for i := 0 to |corruptionPerKey|
        invariant r >= 0.0
        invariant forall j :: 0 <= j < i ==> corruptionPerKey[j] <= r
        invariant r == 0.0 || r in corruptionPerKey[..i]
      {
        r := Max(r, corruptionPerKey[i]);
      }
    }
  }

  /** All flags are set exactly when the count reaches the length. */
  lemma {:induction false} CountTrueAll(flags: seq<bool>)
    ensures CountTrue(flags) == |flags| <==> forall i :: 0 <= i < |flags| ==> flags[i]
  {
    if flags != [] {
      CountTrueAll(flags[..|flags| - 1]);
    }
  }

  lemma MeanBounds(sum: real, n: nat)
    requires n > 0 && 0.0 <= sum <= 100.0 * (n as real)
    ensures 0.0 <= sum / (n as real) <= 100.0
  {
  }

  /**
   * A used statistics object that is reset fails check(): one update, then a
   * reset, leaves a per-key value behind while nbKeys is 0.
   */
  method ResetLeavesStaleKey() returns (r: Result<()>)
    ensures r.Err?
  {
    var stats := new LogicLockingStatistics(1, 1);
    var u := stats.Update([[1]]);
    stats.Reset(1, 1);
    r := stats.Check();
  }

  /** With the intended reset the same sequence passes check(). */
  method ResetAllPassesCheck() returns (r: Result<()>)
    ensures r.Ok?
  {
    var stats := new LogicLockingStatistics(1, 1);
    var u := stats.Update([[1]]);
    stats.ResetAll(1, 1);
    r := stats.Check();
  }
}
