/**
 * The logic_locking command (src/cmd_logic_locking.cpp): ranking cells by a
 * metric, option parsing, truncation of the optimiser's result and the
 * split of the key between the locking gates and the SAT countermeasure.
 */
module LockingCommand {
  import opened Common
  import opened Sorting
  import CommandUtils

  /*
   * select_best_cells
   */

  /** The metric of cell i (0 outside the table, where it is never consulted). */
  function MetricAt(metric: seq<real>, i: nat): real
  {
    if i < |metric| then metric[i] else 0.0
  }

  /**
   * The order the stable sort by decreasing metric leaves the cells in: a
   * higher metric first and, on a tie, the cell that came first.
   */
  function Before(metric: seq<real>, i: nat, j: nat): bool
  {
    MetricAt(metric, i) > MetricAt(metric, j) || (MetricAt(metric, i) == MetricAt(metric, j) && i < j)
  }

  lemma BeforeIsStrictTotalOrder(metric: seq<real>)
    ensures StrictTotalOrder((i: nat, j: nat) => Before(metric, i, j))
  {
  }

  /** With duplicate removal, only the first cell (in input order) carrying a metric value can be kept. */
  predicate Eligible(metric: seq<real>, i: nat, removeDuplicates: bool)
    requires i < |metric|
  {
    !removeDuplicates || forall j :: 0 <= j < i ==> metric[j] != metric[i]
  }

  function Range(n: nat): (r: seq<nat>)
    ensures |r| == n && forall i :: 0 <= i < n ==> r[i] == i
  {
    if n == 0 then [] else Range(n - 1) + [n - 1]
  }

  /**
   * select_best_cells: the cells taken in the stable order, skipping (with
   * removeDuplicates) a cell whose metric equals that of the cell sorted
   * just before it, and stopping at maxNumber. picked holds the positions
   * of the returned cells.
   */
  method SelectBestCells<C>(cells: seq<C>, metric: seq<real>, maxNumber: int, removeDuplicates: bool)
    returns (r: seq<C>, ghost picked: seq<nat>)
    requires |metric| == |cells|
    ensures |r| == |picked| && forall k :: 0 <= k < |picked| ==> picked[k] < |cells| && r[k] == cells[picked[k]]
    ensures |r| <= maxNumber || r == []
    ensures forall k :: 0 <= k < |picked| ==> Eligible(metric, picked[k], removeDuplicates)
    ensures forall k, l :: 0 <= k < l < |picked| ==> Before(metric, picked[k], picked[l])
    ensures forall i :: 0 <= i < |cells| && Eligible(metric, i, removeDuplicates) && i !in picked ==>
              |picked| >= maxNumber && forall k :: 0 <= k < |picked| ==> Before(metric, picked[k], i)
  {
    var sorted := SortedPositions(metric);
    r, picked := [], [];
    var i := 0;
    while i < |sorted|
      invariant i <= |sorted|
      invariant |r| == |picked| && forall k :: 0 <= k < |picked| ==> picked[k] < |cells| && r[k] == cells[picked[k]]
      invariant |r| <= maxNumber || r == []
      invariant Selected(metric, sorted, picked, i, removeDuplicates)
    {
      if |r| >= maxNumber {
        break;
      }
      FirstOfRun(metric, sorted, i);
      if removeDuplicates && i > 0 && metric[sorted[i]] == metric[sorted[i - 1]] {
        SkipStep(metric, sorted, picked, i, removeDuplicates);
        i := i + 1;
        continue;
      }
      PickStep(metric, sorted, picked, i, removeDuplicates);
      r, picked := r + [cells[sorted[i]]], picked + [sorted[i]];
      i := i + 1;
    }
    Unpicked(metric, sorted, picked, i, maxNumber, removeDuplicates);
  }

  /** The stable sort of the cell positions by decreasing metric. */
  method SortedPositions(metric: seq<real>) returns (sorted: seq<nat>)
    ensures StableOrder(metric, sorted)
  {
    BeforeIsStrictTotalOrder(metric);
    sorted := SortBy(Range(|metric|), (i: nat, j: nat) => Before(metric, i, j));
    StableOrderFacts(metric, sorted);
  }

  /**
   * The loop's state after i sorted positions: the picked cells come
   * from those positions, are eligible and in sorted order, and every
   * eligible cell among them was picked.
   */
  ghost predicate Selected(metric: seq<real>, sorted: seq<nat>, picked: seq<nat>, i: nat, removeDuplicates: bool)
    requires StableOrder(metric, sorted) && i <= |sorted|
  {
    && (forall k :: 0 <= k < |picked| ==> picked[k] in sorted[..i] && Eligible(metric, picked[k], removeDuplicates))
    && (forall k, l :: 0 <= k < l < |picked| ==> Before(metric, picked[k], picked[l]))
    && (forall p :: 0 <= p < i && Eligible(metric, sorted[p], removeDuplicates) ==> sorted[p] in picked)
  }

  /** Skipping a position that is not eligible keeps the loop's state. */
  lemma SkipStep(metric: seq<real>, sorted: seq<nat>, picked: seq<nat>, i: nat, removeDuplicates: bool)
    requires StableOrder(metric, sorted) && i < |sorted| && Selected(metric, sorted, picked, i, removeDuplicates)
    requires !Eligible(metric, sorted[i], removeDuplicates)
    ensures Selected(metric, sorted, picked, i + 1, removeDuplicates)
  {
    assert sorted[..i + 1] == sorted[..i] + [sorted[i]];
    forall k | 0 <= k < |picked|
      ensures picked[k] in sorted[..i + 1]
    {
      assert picked[k] in sorted[..i];
    }
  }

  /** Picking an eligible position appends a cell that comes after every picked one. */
  lemma PickStep(metric: seq<real>, sorted: seq<nat>, picked: seq<nat>, i: nat, removeDuplicates: bool)
    requires StableOrder(metric, sorted) && i < |sorted| && Selected(metric, sorted, picked, i, removeDuplicates)
    requires Eligible(metric, sorted[i], removeDuplicates)
    ensures Selected(metric, sorted, picked + [sorted[i]], i + 1, removeDuplicates)
  {
    assert sorted[..i + 1] == sorted[..i] + [sorted[i]];
    PickedBefore(metric, sorted, picked, i);
    var next := picked + [sorted[i]];
    forall k | 0 <= k < |next|
      ensures next[k] in sorted[..i + 1] && Eligible(metric, next[k], removeDuplicates)
    {
      if k < |picked| {
        assert next[k] == picked[k] && picked[k] in sorted[..i];
      }
    }
    forall k, l | 0 <= k < l < |next|
      ensures Before(metric, next[k], next[l])
    {
      assert next[k] == picked[k];
    }
  }

  /** Once the loop stops, an eligible cell left out comes after every picked one, and the budget is spent. */
  lemma Unpicked(metric: seq<real>, sorted: seq<nat>, picked: seq<nat>, i: nat, maxNumber: int, removeDuplicates: bool)
    requires StableOrder(metric, sorted) && i <= |sorted|
    requires forall k :: 0 <= k < |picked| ==> picked[k] in sorted[..i]
    requires forall p :: 0 <= p < i && Eligible(metric, sorted[p], removeDuplicates) ==> sorted[p] in picked
    requires i < |sorted| ==> |picked| >= maxNumber
    ensures forall j :: 0 <= j < |metric| && Eligible(metric, j, removeDuplicates) && j !in picked ==>
              |picked| >= maxNumber && forall k :: 0 <= k < |picked| ==> Before(metric, picked[k], j)
  {
    forall j | 0 <= j < |metric| && Eligible(metric, j, removeDuplicates) && j !in picked
      ensures |picked| >= maxNumber && forall k :: 0 <= k < |picked| ==> Before(metric, picked[k], j)
    {
      assert j in sorted;
      var q :| 0 <= q < |sorted| && sorted[q] == j;
      forall k | 0 <= k < |picked|
        ensures Before(metric, picked[k], j)
      {
        assert picked[k] in sorted[..i];
        var p :| 0 <= p < i && sorted[..i][p] == picked[k];
        assert Before(metric, sorted[p], sorted[q]);
      }
    }
  }

  lemma PickedBefore(metric: seq<real>, sorted: seq<nat>, picked: seq<nat>, i: nat)
    requires StableOrder(metric, sorted) && i < |sorted|
    requires forall k :: 0 <= k < |picked| ==> picked[k] in sorted[..i]
    ensures forall k :: 0 <= k < |picked| ==> Before(metric, picked[k], sorted[i])
  {
    forall k | 0 <= k < |picked|
      ensures Before(metric, picked[k], sorted[i])
    {
      var p :| 0 <= p < i && sorted[p] == picked[k];
    }
  }

  /** What the stable sort of the positions guarantees: every position exactly once, in the order Before. */
  ghost predicate StableOrder(metric: seq<real>, sorted: seq<nat>)
  {
    && (forall p :: 0 <= p < |sorted| ==> sorted[p] < |metric|)
    && (forall i :: 0 <= i < |metric| ==> i in sorted)
    && (forall p, q :: 0 <= p < q < |sorted| ==> Before(metric, sorted[p], sorted[q]))
  }

  lemma StableOrderFacts(metric: seq<real>, sorted: seq<nat>)
    requires StrictTotalOrder((i: nat, j: nat) => Before(metric, i, j))
    requires SortedBy(sorted, (i: nat, j: nat) => Before(metric, i, j))
    requires multiset(sorted) == multiset(Range(|metric|)) && Distinct(sorted)
    ensures StableOrder(metric, sorted)
  {
    var range := Range(|metric|);
    forall p | 0 <= p < |sorted|
      ensures sorted[p] < |metric|
    {
      assert sorted[p] in multiset(range);
    }
    forall i | 0 <= i < |metric|
      ensures i in sorted
    {
      assert range[i] == i;
      assert i in multiset(sorted);
    }
    forall p, q | 0 <= p < q < |sorted|
      ensures Before(metric, sorted[p], sorted[q])
    {
      assert sorted[p] != sorted[q];
    }
  }

  /**
   * In the stable order a cell's metric equals that of the cell just
   * before it exactly when an earlier cell of the input carries the same
   * metric: equal metrics form one run, ordered by input position.
   */
  lemma FirstOfRun(metric: seq<real>, sorted: seq<nat>, p: nat)
    requires StableOrder(metric, sorted) && p < |sorted|
    ensures Eligible(metric, sorted[p], true) <==> p == 0 || metric[sorted[p - 1]] != metric[sorted[p]]
  {
    var x := sorted[p];
    if !Eligible(metric, x, true) {
      var j :| 0 <= j < x && metric[j] == metric[x];
      assert j in sorted;
      var q :| 0 <= q < |sorted| && sorted[q] == j;
      assert q < p;
      if q < p - 1 {
        assert Before(metric, sorted[q], sorted[p - 1]);
        assert Before(metric, sorted[p - 1], x);
      }
    } else if p > 0 {
      assert Before(metric, sorted[p - 1], x);
    }
  }

  /*
   * Option parsing.
   */

  datatype OptimizationTarget =
    | PairwiseSecurity
    | PairwiseSecurityNoDedup
    | OutputCorruption
    | Hybrid
    | FaultAnalysisFll
    | FaultAnalysisKip
    | Outputs

  /** The names -target accepts for each objective, the full name first. */
  function TargetNames(t: OptimizationTarget): seq<string>
  {
    match t
    case PairwiseSecurity => ["pairwise"]
    case PairwiseSecurityNoDedup => ["pairwise-no-dedup"]
    case OutputCorruption => ["corruption"]
    case Hybrid => ["hybrid"]
    case FaultAnalysisFll => ["fault-analysis-fll", "fll"]
    case FaultAnalysisKip => ["fault-analysis-kip", "kip"]
    case Outputs => ["outputs"]
  }

  function InvalidTargetMessage(t: string): string
  {
    "Invalid target option " + t
  }

  /** parseOptimizationTarget: an exact name of an objective, or an error naming the option. */
  function ParseOptimizationTarget(t: string): (r: Result<OptimizationTarget>)
    ensures r.Ok? ==> t in TargetNames(r.value)
    ensures r.Err? ==> r.msg == InvalidTargetMessage(t)
  {
    if t == "pairwise" then Ok(PairwiseSecurity)
    else if t == "pairwise-no-dedup" then Ok(PairwiseSecurityNoDedup)
    else if t == "corruption" then Ok(OutputCorruption)
    else if t == "hybrid" then Ok(Hybrid)
    else if t == "fault-analysis-fll" || t == "fll" then Ok(FaultAnalysisFll)
    else if t == "fault-analysis-kip" || t == "kip" then Ok(FaultAnalysisKip)
    else if t == "outputs" then Ok(Outputs)
    else Err(InvalidTargetMessage(t))
  }

  /** Every name of every objective, aliases included, parses to that objective. */
  lemma TargetNamesParse(t: OptimizationTarget, name: string)
    requires name in TargetNames(t)
    ensures ParseOptimizationTarget(name) == Ok(t)
  {
  }

  datatype SatCountermeasure = NoCountermeasure | AntiSat | SarLock | SkgLock | SkgLockPlus | CasLock

  function CountermeasureName(c: SatCountermeasure): string
  {
    match c
    case NoCountermeasure => "none"
    case AntiSat => "antisat"
    case SarLock => "sarlock"
    case SkgLock => "skglock"
    case SkgLockPlus => "skglock+"
    case CasLock => "caslock"
  }

  function InvalidCountermeasureMessage(t: string): string
  {
    "Invalid antisat option " + t
  }

  /** parseSatCountermeasure: the exact name of a countermeasure, or an error naming the option. */
  function ParseSatCountermeasure(t: string): (r: Result<SatCountermeasure>)
    ensures r.Ok? ==> t == CountermeasureName(r.value)
    ensures r.Err? ==> r.msg == InvalidCountermeasureMessage(t)
  {
    if t == "none" then Ok(NoCountermeasure)
    else if t == "antisat" then Ok(AntiSat)
    else if t == "sarlock" then Ok(SarLock)
    else if t == "skglock" then Ok(SkgLock)
    else if t == "skglock+" then Ok(SkgLockPlus)
    else if t == "caslock" then Ok(CasLock)
    else Err(InvalidCountermeasureMessage(t))
  }

  lemma CountermeasureNamesParse(c: SatCountermeasure)
    ensures ParseSatCountermeasure(CountermeasureName(c)) == Ok(c)
  {
  }

  /*
   * run_logic_locking and execute.
   */

  /**
   * The cells run_logic_locking returns: for every objective but Outputs,
   * a result longer than nbLocked is cut down to its first nbLocked cells.
   */
  function TruncateLocked<C>(locked: seq<C>, nbLocked: nat, target: OptimizationTarget): (r: seq<C>)
    ensures target == Outputs ==> r == locked
    ensures target != Outputs ==> |r| == CommandUtils.Min(|locked|, nbLocked) && r <= locked
  {
    if target != Outputs && |locked| > nbLocked then locked[..nbLocked] else locked
  }

  /** The two halves of the key: one bit per locked gate, then the countermeasure's bits. */
  datatype KeySplit = KeySplit(lockKey: seq<bool>, antisatKey: seq<bool>)

  /** execute's error for a key shorter than the locking gates and the countermeasure need. */
  function KeySizeMessage(given: int, size: int, nbLocked: int, nbAntisat: int): string
  {
    "Key size is " + Decimal(given) + " bits, while " + Decimal(size) + " are required ("
      + Decimal(nbLocked) + " locking + " + Decimal(nbAntisat) + " antisat)"
  }

  /** The countermeasure's share of the key: none when there is no countermeasure. */
  function AntisatBits(nbAntisat: nat, c: SatCountermeasure): nat
  {
    if c == NoCountermeasure then 0 else nbAntisat
  }

  /**
   * The key handling of execute: the -key option is parsed as hexadecimal
   * (an empty option parses to no bits and a generated key of the required
   * size is used instead); a key shorter than the locked gates plus the
   * countermeasure needs is an error; otherwise its first nbLocked bits
   * drive the locking gates and the next ones the countermeasure.
   */
  function SplitKey(key: string, generated: seq<bool>, nbLocked: nat, nbAntisat: nat, c: SatCountermeasure): (r: Result<KeySplit>)
    requires key == "" ==> |generated| == nbLocked + AntisatBits(nbAntisat, c)
    ensures CommandUtils.ParseHex(key).Err? ==> r == Err(CommandUtils.ParseHex(key).msg)
    ensures key == "" ==> r.Ok? && r.value.lockKey + r.value.antisatKey == generated
    ensures key != "" && CommandUtils.ParseHex(key).Ok? ==>
      var given := CommandUtils.ParseHex(key).value;
      var size := nbLocked + AntisatBits(nbAntisat, c);
      if |given| < size then r == Err(KeySizeMessage(|given|, size, nbLocked, AntisatBits(nbAntisat, c)))
      else r.Ok? && r.value.lockKey + r.value.antisatKey == given[..size]
    ensures r.Ok? ==> |r.value.lockKey| == nbLocked && |r.value.antisatKey| == AntisatBits(nbAntisat, c)
  {
    match CommandUtils.ParseHex(key)
    case Err(m) => Err(m)
    case Ok(parsed) =>
      var values := if key == "" then generated else parsed;
      var size := nbLocked + AntisatBits(nbAntisat, c);
      if size > |values| then Err(KeySizeMessage(|values|, size, nbLocked, AntisatBits(nbAntisat, c)))
      else
        var kept := values[..size];
        assert kept[..nbLocked] + kept[nbLocked..] == kept;
        Ok(KeySplit(kept[..nbLocked], kept[nbLocked..]))
  }
}
