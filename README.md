# A verified model of the logic-locking toolkit's core

The toolkit locks a combinational netlist with key gates and measures how well the locking resists. It builds an And-Inverter Graph (AIG) of the design and simulates it on 64 test vectors at once, using one machine word per signal. From those simulations it derives corruption metrics and a pairwise-security test. Optimisers use these to choose the gates to lock, and a SAT-attack controller tries to recover the key. This project models that core in Dafny, one module per source file, and proves what each part promises.

- **MiniAig** (`src/mini_aig.hpp`, `src/mini_aig.cpp`).
  - Literals are packed as variable and polarity.
  - The append-only node array is a class whose builder methods grow the graph.
  - `simulate` and `simulateWithToggling` are loops over a state buffer, proved equal to a reference evaluation.
  - The reference evaluation is defined once over any algebra with AND and complement. It covers 64-lane words, single bits and SAT formulas.
  - The 64 lanes are proved independent.
  - Every gate builder is proved to compute its Boolean function.
- **SatEncoding** and **SatAttackModel** (`src/sat_attack.cpp`).
  - How inputs and key bits are placed.
  - The formulas `aigToSat`, `extractOutputs` and `forceKeyCorrect` build, and what an assignment satisfying them means.
  - The solver session, whose solver is any solver that answers correctly.
  - The attack class: its test-vector store, the exact and approximate refinement loops, error measurement with its constraint cap, and brute force.
  - A stored distinguishing input removes a consistent key. This bounds the number of rounds.
- **Analyzer** and **Sensitivity** (`src/logic_locking_analyzer.cpp`).
  - `cell_to_aig`'s translation of each cell type into gates.
  - Corruption data as the XOR of toggled and untoggled output words.
  - The flatten and merge helpers.
  - The pairwise-security test. Its word-level form is proved equivalent to the one-bit sensitivity condition documented beside the command.
- **CliqueOptimizer** (`src/logic_locking_optimizer.cpp`).
  - The four cleanup passes on the interference lists, and both `check` overloads.
  - `hasEdge` and `isClique`.
  - Bron–Kerbosch enumeration of maximal cliques and greedy clique packing.
  - The edge and node counts.
- **OutputCorruption** and **GreedySelection** (`src/output_corruption_optimizer.cpp`).
  - Popcount-based coverage.
  - Unique-row filtering.
  - The greedy max-coverage solver.
- **Optimization** and **ParetoObjectives** (`src/optimization.cpp`, `src/optimization_objectives.cpp`).
  - The local moves.
  - The Pareto front, which never holds a dominated member.
  - Weak dominance.
- **DelayAnalysis** (`src/delay_analyzer.cpp`).
  - Node numbering and dependency lists.
  - The depth-first sort as written, and a corrected topological sort.
  - The longest-path delay of a locking solution.
- **CommandUtils** (`src/command_utils.cpp`): the hexadecimal key and solution codecs, with their round trips.
- **Statistics** (`src/logic_locking_statistics.cpp`): the accumulators over test keys and the percentages derived from them.
- **AntiSat** (`src/antisat.cpp`): the Boolean functions of the AntiSAT, SARLock and SKGLock blocks.
- **GateInsertion** (`src/gate_insertion.cpp`).
  - XOR and MUX key gates over a small netlist of cells, ports and wires.
  - `lock_gates` and `mix_gates`, with their count checks and one fresh key input per gate.
- **LockingCommand** and **ExploreCommand** (`src/cmd_logic_locking.cpp`, `src/cmd_explore.cpp`).
  - Cell ranking and option parsing.
  - Result truncation and the split of the key.
  - De-duplication of the objective list.
- **Common** and **Sorting**: shared pieces.
  - Results, 64-bit words and population counts.
  - Rounding a vector count up to a multiple of 64.
  - The lexicographic order and sorting by a strict total order.

Random draws, the SAT solver and the design under attack are parameters of the methods that use them. Floating-point ratios are exact reals, or integer numerators and denominators.

## Model

| member | source | states |
|---|---|---|
| Common.PopCount | src/output_corruption_optimizer.cpp:41 | the population count of a 64-lane word (std::bitset<64>::count) is at most 64 |
| Common.PopCountAllConcat | src/output_corruption_optimizer.cpp:37-44 | the total popcount of a row of words is additive over concatenation, so countSet can accumulate word by word |
| Common.PopCountAllZero | src/logic_locking_statistics.cpp:81-95 | a run of zero words contributes no corrupted bit |
| Common.RoundToLanesSpec | src/cmd_logic_locking.cpp:311-317 | the rounded vector count is a multiple of 64, never below the request; for a non-negative request it is the least such multiple, and a multiple of 64 is kept as it is |
| Common.DecimalDigits | src/cmd_logic_locking.cpp:405-406 | the digits %d prints for a non-negative number: decimal digits only, with no leading zero except for 0 itself |
| Common.DecimalRoundTrip | src/cmd_logic_locking.cpp:405-406 | reading the printed digits back gives the number |
| Common.Decimal | src/sat_attack.cpp:177 | %d starts with a minus sign exactly for a negative number |
| Common.DecimalInjective | src/sat_attack.cpp:18 | different numbers print differently, so an error message determines the numbers it reports |
| Sorting.LexIsStrictTotalOrder | src/optimization.cpp:116-121 | the lexicographic order of std::vector's operator< over a strict total order is itself irreflexive, transitive and total |
| Sorting.LexIrreflexive | src/optimization.cpp:116-121 | no vector is lexicographically below itself |
| Sorting.LexTransitive | src/optimization.cpp:116-121 | the lexicographic order is transitive |
| Sorting.LexTotal | src/optimization.cpp:116-121 | two different vectors are ordered one way or the other |
| Sorting.InsertSorted | src/logic_locking_optimizer.cpp:23 | placing an element after every element not above it keeps a sorted list sorted |
| Sorting.InsertBy | src/logic_locking_optimizer.cpp:23 | one insertion step gives a sorted list holding the old elements plus the new one, without repeats when there were none |
| Sorting.SortBy | src/logic_locking_optimizer.cpp:23 | the result of std::sort: sorted, a permutation of the input, and free of repeats when the input was |
| GreedySelection.RemoveAllMember | src/output_corruption_optimizer.cpp:125 | erasing every occurrence of the pick keeps exactly the other candidates |
| GreedySelection.GreedyStep | src/output_corruption_optimizer.cpp:108-131 | one greedy round appends the pick to the solution and removes it from the candidates |
| GreedySelection.GreedyKeepsPicked | src/output_corruption_optimizer.cpp:102-133 | the rounds keep the earlier solution as a prefix and add at most one node per round |
| GreedySelection.GreedyAddsCandidates | src/output_corruption_optimizer.cpp:102-133 | every node the rounds add was a candidate |
| GreedySelection.GreedyAddsDistinct | src/output_corruption_optimizer.cpp:102-133 | no node is added twice, since each round removes its pick from the candidates |
| ParetoObjectives.Objective | src/optimization_objectives.cpp:19-29 | the objective vector has five entries, in the order -area, -delay, corruption estimate, corruptibility estimate, pairwise security |
| ParetoObjectives.ParetoDominates | src/optimization_objectives.cpp:41-52 | the scan with its early returns decides weak dominance: equal lengths and no entry of a below the entry of b |
| ParetoObjectives.DominatesNeedsSameLength | src/optimization_objectives.cpp:43-45 | vectors of different lengths dominate neither way |
| ParetoObjectives.DominatesReflexive | src/optimization_objectives.cpp:46-51 | every vector dominates itself, so an objective equal to a front member's is rejected |
| ParetoObjectives.DominatesTransitive | src/optimization_objectives.cpp:46-51 | dominance is transitive |
| ParetoObjectives.DominatesAntisymmetric | src/optimization_objectives.cpp:46-51 | two vectors that dominate each other are equal |
| ParetoObjectives.ObjectiveDominance | src/optimization_objectives.cpp:19-29 | on objective vectors, dominance means no more area and delay and no less corruption, corruptibility and pairwise security |
| AntiSat.XorBits | src/antisat.cpp:9-10 | the $xor cell: bit i of the output is the exclusive or of bit i of its operands |
| AntiSat.ReduceAndAll | src/antisat.cpp:11-12 | $reduce_and is 1 exactly when every bit is 1 |
| AntiSat.MatchesComplement | src/antisat.cpp:9-11 | the reduced XOR of the input with a key is 1 on exactly one input, the complement of the key |
| AntiSat.AntiSatEqualKeysNeverFlip | src/antisat.cpp:5-15 | with equal key halves the AntiSAT block never flips an output, whatever the input |
| AntiSat.AntiSatFlipsOnce | src/antisat.cpp:5-15 | with different key halves the AntiSAT block flips on exactly one input, the complement of key1 |
| AntiSat.SarLockFlip | src/antisat.cpp:17-25 | SARLock never flips under the expected key; under another key it flips exactly when the input equals the key |
| AntiSat.SkgLock | src/antisat.cpp:27-44 | the loop carrying b produces, for every bit i, the AND of input XOR key over bits 0 to i |
| AntiSat.SkgLockNonIncreasing | src/antisat.cpp:32-38 | once an SKGLock output bit is 0 every later bit is 0 |
| AntiSat.SkgLockFullMatch | src/antisat.cpp:27-44 | the last SKGLock output is 1 for exactly one key, the bitwise complement of the input |
| ExploreCommand.Uniquify | src/cmd_explore.cpp:171-184 | the in-place erase loop leaves exactly the objectives with every repetition of an earlier one removed |
| ExploreCommand.DedupSameElements | src/cmd_explore.cpp:171-184 | de-duplication keeps the same set of objectives: nothing is lost, nothing is added |
| ExploreCommand.DedupDistinct | src/cmd_explore.cpp:171-184 | after de-duplication the objectives are pairwise different |
| ExploreCommand.DedupFirstOccurrenceOrder | src/cmd_explore.cpp:171-184 | each objective is kept at its first occurrence, so the kept objectives keep their relative order |
| ExploreCommand.DedupCount | src/cmd_explore.cpp:171-188 | the de-duplicated list has one entry per distinct objective, so the size test counts distinct objectives |
| ExploreCommand.PrepareObjectives | src/cmd_explore.cpp:171-188 | fewer than two distinct objectives is an error; otherwise the de-duplicated list is used |
| ExploreCommand.FirstIndexPrefix | src/cmd_explore.cpp:172-184 | appending to the kept list does not move the first occurrence of an objective already in it |
| LockingCommand.BeforeIsStrictTotalOrder | src/cmd_logic_locking.cpp:120 | decreasing metric, ties broken by input position, is a strict total order on cell positions, so the stable sort's result is determined |
| LockingCommand.SortedPositions | src/cmd_logic_locking.cpp:115-120 | the stable sort lists every cell position exactly once, by decreasing metric and in input order on ties |
| LockingCommand.SelectBestCells | src/cmd_logic_locking.cpp:111-134 | the result lists cells in sorted order, at most maxNumber of them, each eligible (first of its metric when removeDuplicates is set); every eligible cell left out comes after all picked ones and only when the budget is spent |
| LockingCommand.FirstOfRun | src/cmd_logic_locking.cpp:120-130 | in the stable order a cell has the same metric as the cell sorted just before it exactly when an earlier input cell carries that metric, so the skip test keeps the first cell of each equal run |
| LockingCommand.SkipStep | src/cmd_logic_locking.cpp:128-130 | skipping a cell whose metric repeats the previous one keeps the loop's selection state |
| LockingCommand.PickStep | src/cmd_logic_locking.cpp:131 | appending an eligible cell keeps the selection in sorted order |
| LockingCommand.Unpicked | src/cmd_logic_locking.cpp:124-127 | when the loop stops, every eligible cell left out comes after the picked ones and the budget maxNumber is reached |
| LockingCommand.PickedBefore | src/cmd_logic_locking.cpp:124-132 | cells picked from earlier sorted positions come before the current one in the stable order |
| LockingCommand.StableOrderFacts | src/cmd_logic_locking.cpp:120 | a sorted permutation of the positions under that order is the stable order |
| LockingCommand.ParseOptimizationTarget | src/cmd_logic_locking.cpp:238-257 | a target is accepted only under one of its exact names (fll and kip as aliases); anything else is the "Invalid target option" error |
| LockingCommand.TargetNamesParse | src/cmd_logic_locking.cpp:238-257 | every name and alias of a target parses to that target |
| LockingCommand.ParseSatCountermeasure | src/cmd_logic_locking.cpp:259-276 | a countermeasure is accepted only under its exact name; anything else is the "Invalid antisat option" error |
| LockingCommand.CountermeasureNamesParse | src/cmd_logic_locking.cpp:259-276 | the name of every countermeasure parses back to it |
| LockingCommand.TruncateLocked | src/cmd_logic_locking.cpp:204-217 | for every target but outputs the locked list is cut to its first nb_locked cells; the outputs target keeps it whole |
| LockingCommand.SplitKey | src/cmd_logic_locking.cpp:379-429 | a malformed -key is the parse error; no countermeasure means no countermeasure bits; a key shorter than locking plus countermeasure bits is an error, else it is cut to that size, the first nb_locked bits drive the locking gates and the rest the countermeasure |
| CommandUtils.ToLower | src/command_utils.cpp:36 | std::tolower in the C locale moves 'A' to 'Z' down to lower case and leaves every other character alone |
| CommandUtils.HexValue | src/command_utils.cpp:36-44 | a character has a digit value, below 16, exactly when it is a hexadecimal digit of either case |
| CommandUtils.DigitChar | src/command_utils.cpp:77-81 | the digit printed for a value below 16 is a lower-case hexadecimal digit that reads back as that value |
| CommandUtils.DigitOfValue | src/command_utils.cpp:36-81 | printing the value of a digit gives the digit in lower case |
| CommandUtils.ValueOfLowBits | src/command_utils.cpp:45-48 | the four bits the inner loop pushes, least significant first, encode the digit's value |
| CommandUtils.LowBitsOfValue | src/command_utils.cpp:45-76 | re-splitting the value of a group of bits gives the group back, padded with zeros |
| CommandUtils.ParseHexShape | src/command_utils.cpp:31-51 | parsing succeeds exactly when every character is a hexadecimal digit, and then yields four bits per character |
| CommandUtils.ParseHexBits | src/command_utils.cpp:34-48 | the character at position i supplies bits 4(n-1-i) to 4(n-1-i)+3, least significant bit first, so the last character gives bits 0 to 3 |
| CommandUtils.ParseHexSnoc | src/command_utils.cpp:34-48 | appending a character on the right puts its nibble in front of the bits of the rest |
| CommandUtils.ParseHexStringToBool | src/command_utils.cpp:31-51 | the loop from the last character to the first computes the parse of the whole string, including the error on a non-hexadecimal character |
| CommandUtils.PushNibble | src/command_utils.cpp:45-48 | the inner loop appends the four low bits of v, least significant first |
| CommandUtils.ParseHexErrorPropagates | src/command_utils.cpp:42-44 | the rightmost non-hexadecimal character is the one the error names |
| CommandUtils.ParseHexErrorFromSuffix | src/command_utils.cpp:34-44 | an error found in a suffix is the error of the whole string |
| CommandUtils.HexOfShape | src/command_utils.cpp:65-85 | the printed text has one lower-case hexadecimal digit per started group of four bits |
| CommandUtils.HexOfStep | src/command_utils.cpp:68-83 | the group holding bit 0 is printed as the last digit |
| CommandUtils.HexOfAppend | src/command_utils.cpp:68-83 | bits in front of a whole number of groups print as digits to the left of the rest |
| CommandUtils.GroupValue | src/command_utils.cpp:69-76 | the printer's inner loop computes the value of the group of at most four bits starting at i, below 16 |
| CommandUtils.DigitsStep | src/command_utils.cpp:68-82 | each outer round emits the digit of the next group |
| CommandUtils.CreateHexString | src/command_utils.cpp:65-85 | the loop followed by std::reverse prints the hexadecimal text of the bit vector |
| CommandUtils.PadToNibbles | src/command_utils.cpp:45-48 | the padded vector extends the bits with at most three zeros to a whole number of nibbles |
| CommandUtils.ParsePrinted | src/command_utils.cpp:31-85 | parsing printed bits gives them back, padded with false to a multiple of four |
| CommandUtils.PrintParsed | src/command_utils.cpp:31-85 | printing the bits of a valid string gives the string back in lower case, leading zeros included |
| CommandUtils.SetPositions | src/command_utils.cpp:56-62 | the indices of exactly the set bits, in strictly increasing order |
| CommandUtils.ParseHexStringToSol | src/command_utils.cpp:53-63 | the solution read from hexadecimal is the increasing list of set-bit indices, or the parser's error |
| CommandUtils.Indicator | src/command_utils.cpp:93-96 | the indicator vector has the requested size and is set exactly at the solution's indices |
| CommandUtils.SolHexAsWrittenFails | src/command_utils.cpp:87-98 | the code as written writes out of bounds exactly when some index is negative or not below nbNodes |
| CommandUtils.SolHexAsWrittenDefaultSize | src/command_utils.cpp:87-98 | with the default nbNodes of 0 the solution {0} is written out of bounds, while the corrected printer gives "1" |
| CommandUtils.SolSize | src/command_utils.cpp:89-92 | the intended size covers every index and is at least nbNodes |
| CommandUtils.SolHexAgrees | src/command_utils.cpp:87-98 | whenever the written code stays in bounds, the corrected printer gives the same text |
| CommandUtils.SolHexRoundTrip | src/command_utils.cpp:53-98 | the corrected print of a solution parses back to exactly its indices |
| CommandUtils.CreateHexStringOfSol | src/command_utils.cpp:87-98 | the loop writing the indices prints the corrected text |
| Statistics.TotalSet | src/logic_locking_statistics.cpp:85-90 | the corrupted bits of the rows number at most 64 per word |
| Statistics.Percent | src/logic_locking_statistics.cpp:91-94 | 100 * part / whole, between 0 and 100, 0 exactly when no part is counted (or nothing is) and 100 exactly when all is |
| Statistics.CorruptionPercent | src/logic_locking_statistics.cpp:81-95 | the corruption is a percentage, 0 exactly when no bit is set (in particular when there are no words) |
| Statistics.ComputeCorruption | src/logic_locking_statistics.cpp:81-95 | the counting loops compute the percentage of set bits among all bits of the rows |
| Statistics.CheckUpdate | src/logic_locking_statistics.cpp:33-43 | data is accepted exactly when it has nbOutputs rows of nbTestVectors words; a wrong row count is reported before a wrong row length |
| Statistics.AnyNonzero | src/logic_locking_statistics.cpp:53-56 | the inner loop finds whether some word of the row is nonzero |
| Statistics.UpdateOutputFlags | src/logic_locking_statistics.cpp:50-61 | an output flag becomes set when its row has a nonzero word and is never cleared |
| Statistics.AccumulateKeepsBit | src/logic_locking_statistics.cpp:63-70 | a lane set in a test word stays set: the update only ORs |
| Statistics.AccumulateHasRowBit | src/logic_locking_statistics.cpp:63-70 | a lane corrupted on some output for a test vector is set in that test word |
| Statistics.AccumulateAddsOnlyRowBits | src/logic_locking_statistics.cpp:63-70 | a lane set after the update was set before or corrupted on some output |
| Statistics.OrWords | src/logic_locking_statistics.cpp:76 | every word of the accumulator is ORed with the matching word of the row |
| Statistics.UpdateTestWords | src/logic_locking_statistics.cpp:63-70 | every test word accumulates its word of every output row |
| Statistics.UpdateTable | src/logic_locking_statistics.cpp:72-79 | every table entry becomes its old value ORed with the matching data word, keeping the table's shape |
| Statistics.SumBounds | src/logic_locking_statistics.cpp:133-143 | the per-key percentages sum to between 0 and 100 per key |
| Statistics.CountTrue | src/logic_locking_statistics.cpp:119-124 | the number of set output flags is at most the number of flags |
| Statistics.CountTrueAll | src/logic_locking_statistics.cpp:117-129 | the count of set flags reaches the number of outputs exactly when every output flag is set |
| Statistics.MeanBounds | src/logic_locking_statistics.cpp:133-143 | the mean of percentages is a percentage |
| Statistics.LogicLockingStatistics.constructor | src/logic_locking_statistics.cpp:11-21 | a new object has zeroed tables of the given shape, no key and no per-key value, and passes check() |
| Statistics.LogicLockingStatistics.Reset | src/logic_locking_statistics.cpp:13-21 | reset as written: nbKeys is 0 and the tables are zeroed to the new shape, but the per-key values are kept |
| Statistics.LogicLockingStatistics.ResetAll | src/logic_locking_statistics.cpp:13-21 | reset as intended: every statistic starts again, so check() holds afterwards |
| Statistics.LogicLockingStatistics.Update | src/logic_locking_statistics.cpp:23-79 | misshaped data is rejected with nothing changed; accepted data adds one key and its corruption value, sets the flags of corrupted outputs and ORs its words into the test and output-by-test tables |
| Statistics.LogicLockingStatistics.Check | src/logic_locking_statistics.cpp:97-113 | check() passes exactly when the tables have the declared sizes and there is one corruption value per key |
| Statistics.LogicLockingStatistics.Corruptibility | src/logic_locking_statistics.cpp:115 | the share of output and test-vector lanes some key corrupted, a percentage |
| Statistics.LogicLockingStatistics.TestCorruptibility | src/logic_locking_statistics.cpp:131 | the share of test lanes corrupted on some output by some key, a percentage |
| Statistics.LogicLockingStatistics.OutputCorruptibility | src/logic_locking_statistics.cpp:117-129 | the share of outputs some key corrupted, 0 without outputs, and 100 exactly when every output was corrupted |
| Statistics.LogicLockingStatistics.Corruption | src/logic_locking_statistics.cpp:133-143 | the mean per-key corruption, 0 without keys, and a percentage whenever check() holds |
| Statistics.LogicLockingStatistics.CorruptionMin | src/logic_locking_statistics.cpp:145-152 | the smallest per-key corruption, or 100 without keys |
| Statistics.LogicLockingStatistics.CorruptionMax | src/logic_locking_statistics.cpp:154-161 | the largest per-key corruption, or 0 without keys |
| Statistics.ResetLeavesStaleKey | src/logic_locking_statistics.cpp:13-21 | one update followed by reset leaves a per-key value while nbKeys is 0, so check() fails |
| Statistics.ResetAllPassesCheck | src/logic_locking_statistics.cpp:13-21 | with the intended reset the same sequence passes check() |
| OutputCorruption.OrRows | src/output_corruption_optimizer.cpp:128-130 | corr \|= row leaves every word the OR of the two words |
| OutputCorruption.NewBits | src/output_corruption_optimizer.cpp:51 | the bits of a row not already covered, data & ~corr word by word |
| OutputCorruption.CountSet | src/output_corruption_optimizer.cpp:37-44 | countSet is the total population count of the row |
| OutputCorruption.AdditionalCorruption | src/output_corruption_optimizer.cpp:46-55 | additionalCorruption counts the bits of the row not yet covered |
| OutputCorruption.Cover | src/output_corruption_optimizer.cpp:60-66 | the coverage of a solution has nbData words |
| OutputCorruption.CoverConcat | src/output_corruption_optimizer.cpp:60-66 | the coverage of two lists of rows is the OR of their coverages |
| OutputCorruption.CoverAbsorbs | src/output_corruption_optimizer.cpp:60-66 | ORing a row already selected changes nothing |
| OutputCorruption.CoverAbsorbsAll | src/output_corruption_optimizer.cpp:60-66 | ORing the coverage of a subset changes nothing |
| OutputCorruption.CoverDependsOnSet | src/output_corruption_optimizer.cpp:57-68 | the numerator of corruptibility depends only on the set of selected nodes, not on their order or repetitions |
| OutputCorruption.BitsBelowOr | src/output_corruption_optimizer.cpp:64 | an OR of two words has at most the set bits of both together |
| OutputCorruption.PopCountAllOr | src/output_corruption_optimizer.cpp:63-67 | the popcount of an OR of rows is at most the sum of the popcounts |
| OutputCorruption.CoverBelowRateSum | src/output_corruption_optimizer.cpp:57-78 | the numerator of corruptibility never exceeds that of corruptionSum |
| OutputCorruption.OrInto | src/output_corruption_optimizer.cpp:128-130 | the loop ORs the picked row into the coverage |
| OutputCorruption.UniqueBelowShape | src/output_corruption_optimizer.cpp:80-100 | the unique nodes are exactly the nodes whose row differs from every earlier row and from every pre-locked row, in ascending order |
| OutputCorruption.UniquePatterns | src/output_corruption_optimizer.cpp:80-100 | no two unique nodes share a pattern |
| OutputCorruption.UniqueNotPreLocked | src/output_corruption_optimizer.cpp:85-89 | a pre-locked node is never unique, since its row equals its own |
| OutputCorruption.FirstBestIsBest | src/output_corruption_optimizer.cpp:113-124 | no candidate's (cover, rate) is lexicographically above the pick, and every candidate before it is below it |
| OutputCorruption.ScanScores | src/output_corruption_optimizer.cpp:113-124 | the scan from (0, 0) that replaces only on strict improvement selects the first lexicographically largest score |
| OutputCorruption.PickOfIsBest | src/output_corruption_optimizer.cpp:113-124 | the pick is a candidate, no candidate scores above it and every earlier candidate scores below it |
| OutputCorruption.BestPickPicksCandidate | src/output_corruption_optimizer.cpp:113-124 | the greedy rule always picks one of the remaining candidates |
| OutputCorruption.PickBest | src/output_corruption_optimizer.cpp:113-124 | the inner loop, measuring each candidate against the current coverage and its rate, returns the greedy rule's pick |
| OutputCorruption.OutputCorruptionOptimizer.constructor | src/output_corruption_optimizer.cpp:12-17 | corruptionRate_ holds the popcount of every row |
| OutputCorruption.OutputCorruptionOptimizer.Check | src/output_corruption_optimizer.cpp:19-26 | check() passes exactly when every row has the length of the first |
| OutputCorruption.OutputCorruptionOptimizer.CheckSolution | src/output_corruption_optimizer.cpp:28-35 | check(sol) passes exactly when every index lies in [0, nbNodes) |
| OutputCorruption.OutputCorruptionOptimizer.Corruptibility | src/output_corruption_optimizer.cpp:57-68 | an out-of-range solution is an error; otherwise the ratio of the popcount of the OR of the selected rows to 64 * nbData |
| OutputCorruption.OutputCorruptionOptimizer.CorruptionSum | src/output_corruption_optimizer.cpp:70-78 | an out-of-range solution is an error; otherwise the ratio of the summed rates of the selected rows, repetitions included, to 64 * nbData |
| OutputCorruption.OutputCorruptionOptimizer.GetUniqueNodes | src/output_corruption_optimizer.cpp:80-100 | the loops return the unique nodes in ascending order |
| OutputCorruption.OutputCorruptionOptimizer.SolveGreedy | src/output_corruption_optimizer.cpp:102-133 | an out-of-range preLocked is an error; otherwise preLocked followed by the greedy rounds over the unique nodes, with a coverage that starts empty |
| OutputCorruption.GreedyRounds | src/output_corruption_optimizer.cpp:107-131 | the outer loop performs the greedy rounds, stopping early when no candidate is left |
| OutputCorruption.GreedyResult | src/output_corruption_optimizer.cpp:102-133 | the result starts with preLocked, adds only distinct unique nodes that are not pre-locked, and has at most max(\|preLocked\|, min(nbNodes, maxNumber)) entries |
| Optimization.MoveInsert | src/optimization.cpp:18-28 | a drawn node already in the solution gives the empty solution; otherwise the solution with the node appended |
| Optimization.MoveDelete | src/optimization.cpp:30-40 | the empty solution stays empty; otherwise exactly the element at the drawn position is removed |
| Optimization.MoveSwapOutcome | src/optimization.cpp:42-46 | a swap is empty when its insertion fails; otherwise it has the solution's length and replaces one element of solution + [added] |
| Optimization.CreateSolution | src/optimization.cpp:7-16 | with an empty pool the move starts from the empty solution (a deletion gives [], an insertion gives the drawn node); otherwise from the drawn pool entry |
| Optimization.ElementOrder | src/optimization.cpp:116-121 | ordering the front by objective vector and then by solution is a strict total order |
| Optimization.ElementTransitive | src/optimization.cpp:116-121 | that order is transitive |
| Optimization.SurvivorsMembers | src/optimization.cpp:99-104 | the members kept are exactly those obj does not dominate |
| Optimization.NoneDominatedDistinct | src/optimization.cpp:94-106 | a front in which no member dominates another has no repeated member |
| Optimization.NoneDominatedByMembers | src/optimization.cpp:94-106 | distinct members that do not dominate each other form a front free of domination |
| Optimization.NoneDominatedMembers | src/optimization.cpp:94-106 | two different members of such a front do not dominate each other |
| Optimization.SortSolutions | src/optimization.cpp:113-115 | the first loop of cleanupParetoFront sorts the solution of every member |
| Optimization.Optimizer.constructor | src/optimization.cpp:48-53 | the front starts empty |
| Optimization.Optimizer.ParetoFront | src/optimization.cpp:55-62 | paretoFront() lists the solutions of the front, in its order |
| Optimization.Sols | src/optimization.cpp:55-62 | the solutions of a front, one per member, in its order |
| Optimization.Optimizer.ParetoObjectives | src/optimization.cpp:64-74 | paretoObjectives() lists the objective vectors of the front, in the same order |
| Optimization.Optimizer.CleanupParetoFront | src/optimization.cpp:111-122 | after cleanup every solution is sorted and the front is ordered by objective vector and then by solution, keeping its members and staying free of domination |
| Optimization.Optimizer.TryAddSolutionWith | src/optimization.cpp:92-109 | refused, with the front unchanged, exactly when a member dominates obj; otherwise the front becomes AddedTo: the members obj dominates are dropped, (sol, obj) is added, every solution is sorted and the front is ordered |
| Optimization.Optimizer.TryAddSolution | src/optimization.cpp:84-90 | the empty solution is refused without evaluation; otherwise it is accepted exactly when no member dominates its objective vector, and the new front is AddedTo for that vector |
| Optimization.Optimizer.TryMove | src/optimization.cpp:76-82 | the candidate is CreateSolution over the front's solutions; it is accepted exactly when it is non-empty and no member dominates its objective vector, the new front is then AddedTo for it, and a refused candidate leaves the front unchanged |
| Optimization.SomeMemberDominates | src/optimization.cpp:94-98 | the first loop finds whether some member dominates obj |
| Optimization.FilterDominated | src/optimization.cpp:99-104 | the second loop keeps, in order, the members obj does not dominate |
| Optimization.SolutionsSortedKeeps | src/optimization.cpp:113-115 | sorting the solutions keeps the front free of domination and of repeats |
| Optimization.PermutationKeeps | src/optimization.cpp:116-121 | reordering a front without repeats keeps it free of domination |
| Optimization.AddKeepsNoneDominated | src/optimization.cpp:94-106 | adding an undominated entry after dropping what it dominates keeps the front free of domination |
| Optimization.SurvivorsDistinct | src/optimization.cpp:99-104 | filtering a front without repeats leaves none |
| CliqueOptimizer.EraseFirst | src/logic_locking_optimizer.cpp:33-36 | erasing the first occurrence of a value shortens the list by one when it is there and keeps it otherwise, adding nothing |
| CliqueOptimizer.EraseFirstAt | src/logic_locking_optimizer.cpp:69-72 | the erase removes just the position of the first occurrence |
| CliqueOptimizer.DropIncreasing | src/logic_locking_optimizer.cpp:69-72 | removing a position from an increasing list keeps it increasing |
| CliqueOptimizer.DropMembers | src/logic_locking_optimizer.cpp:69-72 | removing a position from an increasing list removes exactly that value |
| CliqueOptimizer.EraseFirstIncreasing | src/logic_locking_optimizer.cpp:33-72 | in an increasing list, erasing a value removes exactly that value and keeps the order |
| CliqueOptimizer.Uniquify | src/logic_locking_optimizer.cpp:25 | std::unique on a sorted list leaves it strictly increasing with the same members |
| CliqueOptimizer.SortNeighbours | src/logic_locking_optimizer.cpp:19-27 | every list becomes strictly increasing with the same members |
| CliqueOptimizer.RemoveSelfLoops | src/logic_locking_optimizer.cpp:29-38 | node i is erased from its own list and nothing else changes |
| CliqueOptimizer.SearchFinds | src/logic_locking_optimizer.cpp:165 | on an increasing list the binary search finds a member within the searched range |
| CliqueOptimizer.SearchExact | src/logic_locking_optimizer.cpp:165 | on an increasing list the binary search succeeds exactly on members |
| CliqueOptimizer.BinarySearch | src/logic_locking_optimizer.cpp:165 | std::binary_search: a success always names a member, and on an increasing list it is exact |
| CliqueOptimizer.HasEdge | src/logic_locking_optimizer.cpp:160-166 | hasEdge searches the list of from for to; on an increasing list it is true exactly when to is listed |
| CliqueOptimizer.Mutual | src/logic_locking_optimizer.cpp:44-49 | the kept entries of list i are exactly those that list i back |
| CliqueOptimizer.MutualIncreasing | src/logic_locking_optimizer.cpp:44-49 | filtering an increasing list keeps it increasing |
| CliqueOptimizer.FilterMutual | src/logic_locking_optimizer.cpp:43-50 | the filtering loop of node i keeps the entries that list i back |
| CliqueOptimizer.RemoveDirectedEdges | src/logic_locking_optimizer.cpp:40-52 | an edge stays exactly when it was listed both ways, although later lists are searched after earlier ones were filtered; the result is symmetric |
| CliqueOptimizer.SymmetricFromMutual | src/logic_locking_optimizer.cpp:40-52 | keeping the edges listed both ways gives a symmetric graph |
| CliqueOptimizer.Detach | src/logic_locking_optimizer.cpp:62-75 | for i < j with equal lists, the result is Isolate(g, j): j is erased from every neighbour's list and its own list is cleared, so every other node keeps exactly its edges to nodes other than j; the three asserts hold and the graph stays well formed |
| CliqueOptimizer.Isolate | src/logic_locking_optimizer.cpp:62-75 | cutting node j out of a graph: j's list is empty and every other list is that list with its first j erased |
| CliqueOptimizer.IsolateShape | src/logic_locking_optimizer.cpp:62-75 | on a well-formed graph Isolate keeps it well formed and removes exactly the edges to j |
| CliqueOptimizer.DetachDone | src/logic_locking_optimizer.cpp:64-74 | the loop's per-neighbour erasures followed by clearing j's list give Isolate(g, j) |
| CliqueOptimizer.NeighbourFacts | src/logic_locking_optimizer.cpp:64-71 | the t-th neighbour k of j (when j's list equals i's) is a valid node other than i and j, lists j, and has not been visited earlier in the loop, since lists hold no duplicates |
| CliqueOptimizer.ErasedStep | src/logic_locking_optimizer.cpp:64-73 | erasing j from the t-th neighbour's list, which is still untouched, extends the loop invariant from the first t neighbours to the first t + 1 |
| CliqueOptimizer.RemoveEquivalentNodes | src/logic_locking_optimizer.cpp:54-78 | the result is the row-by-row pass Pass(g, 0, 1), which cuts out exactly the nodes Isolated(g, 0, 1) (each a later node whose list equalled an earlier node's at that moment): they end with empty lists and every other node keeps exactly its edges to nodes not cut out |
| CliqueOptimizer.EquivalentRow | src/logic_locking_optimizer.cpp:58-76 | the inner loop over j > i for one row i: the result is well formed and continuing the pass from row i + 1 on it gives the same graph as the pass from row i on the input |
| CliqueOptimizer.CutOutWithin | src/logic_locking_optimizer.cpp:54-78 | a graph obtained by cutting nodes out has only edges the original had |
| CliqueOptimizer.Pass | src/logic_locking_optimizer.cpp:56-77 | the pass visits the pairs row by row and keeps its length |
| CliqueOptimizer.PassVisit | src/logic_locking_optimizer.cpp:62-75 | visiting pair (i, j) isolates j exactly when its list equals i's and leaves the rest of the pass |
| CliqueOptimizer.PassRow | src/logic_locking_optimizer.cpp:56-58 | at the end of row i the pass continues with row i + 1 |
| CliqueOptimizer.PassEdges | src/logic_locking_optimizer.cpp:54-78 | what the pass leaves is the input with the nodes it isolated cut out: they have empty lists and every other node keeps exactly its edges to nodes not cut out |
| CliqueOptimizer.CutOutAfterIsolate | src/logic_locking_optimizer.cpp:62-75 | cutting out j and then a set D is cutting out j and D |
| CliqueOptimizer.NoMembers | src/logic_locking_optimizer.cpp:74 | a list with no members is empty |
| CliqueOptimizer.DistinctListsKept | src/logic_locking_optimizer.cpp:59-62 | a graph whose lists are pairwise different goes through the pass unchanged and nothing is isolated |
| CliqueOptimizer.InBoundsByMembers | src/logic_locking_optimizer.cpp:19-52 | lists that hold only members of in-range lists are in range |
| CliqueOptimizer.MutualBelow | src/logic_locking_optimizer.cpp:19-52 | the nodes below k that node i and the input list for each other, other than i, in strictly increasing order |
| CliqueOptimizer.Normalised | src/logic_locking_optimizer.cpp:12-14 | what sortNeighbours, removeSelfLoops and removeDirectedEdges leave: one list per node, node i listing in increasing order exactly the other nodes that it lists and that list it back |
| CliqueOptimizer.NormalisedWellFormed | src/logic_locking_optimizer.cpp:12-14 | the first three passes always give a graph that passes check() |
| CliqueOptimizer.NormalisedKeepsWellFormed | src/logic_locking_optimizer.cpp:12-14 | on a graph that already passes check() the first three passes change nothing |
| CliqueOptimizer.NormalisedByMembers | src/logic_locking_optimizer.cpp:12-14 | increasing lists holding exactly the edges listed both ways (not self-loops) are the normalised graph, so the passes' result is determined by their per-member contracts |
| CliqueOptimizer.LogicLockingOptimizer.constructor | src/logic_locking_optimizer.cpp:10-17 | the object's graph is exactly the equivalence pass run on the normalised input, Pass(Normalised(g), 0, 1), and the nodes it cut out are exactly Isolated(Normalised(g), 0, 1); so the graph passes check(), the cut-out nodes have empty lists, and every other node i lists exactly the x != i listed both ways in the input that were not cut out |
| CliqueOptimizer.StepwiseIncreasing | src/logic_locking_optimizer.cpp:131-136 | a sorted list with no adjacent repeat is strictly increasing |
| CliqueOptimizer.PassingIsWellFormed | src/logic_locking_optimizer.cpp:116-138 | a graph whose every list passes the tests is well formed |
| CliqueOptimizer.ListedBack | src/logic_locking_optimizer.cpp:127-129 | in a well-formed graph the search for the reverse edge succeeds |
| CliqueOptimizer.Check | src/logic_locking_optimizer.cpp:116-138 | check() passes exactly on a well-formed graph, and a failure carries one of its five messages |
| CliqueOptimizer.DegreeSum | src/logic_locking_optimizer.cpp:151-158 | the total list length of the first n nodes is 0 exactly when their lists are empty |
| CliqueOptimizer.ConnectedCount | src/logic_locking_optimizer.cpp:140-149 | the number of non-empty lists among the first n is at most n, 0 exactly when all are empty and n exactly when none is |
| CliqueOptimizer.NbEdgesAsWritten | src/logic_locking_optimizer.cpp:151-158 | nbEdges as written counts half the total length of all lists but the last |
| CliqueOptimizer.NbEdges | src/logic_locking_optimizer.cpp:151-158 | nbEdges over every node is half the total list length |
| CliqueOptimizer.NbConnectedNodesAsWritten | src/logic_locking_optimizer.cpp:140-149 | nbConnectedNodes as written never counts the last node |
| CliqueOptimizer.NbConnectedNodes | src/logic_locking_optimizer.cpp:140-149 | nbConnectedNodes over every node counts the nodes with a non-empty list |
| CliqueOptimizer.SingleEdgeCounts | src/logic_locking_optimizer.cpp:140-158 | on the graph with the single edge 0-1 the code as written reports 0 edges and 1 connected node instead of 1 and 2 |
| CliqueOptimizer.PairsListedIsClique | src/logic_locking_optimizer.cpp:168-178 | on a well-formed graph the ordered pair test is exactly the clique property, so the empty list and singletons are cliques |
| CliqueOptimizer.IsClique | src/logic_locking_optimizer.cpp:168-178 | isClique is true exactly when every pair, earlier node first, is an edge |
| CliqueOptimizer.InRangeByMembers | src/logic_locking_optimizer.cpp:195-233 | a list drawn from in-range nodes is in range |
| CliqueOptimizer.Among | src/logic_locking_optimizer.cpp:212-225 | P ∩ N(v) keeps exactly the members that v lists |
| CliqueOptimizer.AmongShorter | src/logic_locking_optimizer.cpp:212-218 | leaving out a member v does not list shortens P, so the recursion terminates |
| CliqueOptimizer.AmongIncreasing | src/logic_locking_optimizer.cpp:212-218 | P ∩ N(v) stays increasing |
| CliqueOptimizer.Neighbours | src/logic_locking_optimizer.cpp:212-225 | the loops building nextP and nextX compute the members v lists |
| CliqueOptimizer.CliqueExtend | src/logic_locking_optimizer.cpp:208-211 | adding a node that every member lists to a clique gives a clique |
| CliqueOptimizer.ExtendsStep | src/logic_locking_optimizer.cpp:208-225 | the nodes extending R ∪ {v} are the nodes extending R that v lists |
| CliqueOptimizer.BranchReady | src/logic_locking_optimizer.cpp:208-227 | the arguments of the recursive call meet the Bron-Kerbosch invariant |
| CliqueOptimizer.AfterBranch | src/logic_locking_optimizer.cpp:228-231 | erasing v from P keeps it increasing and shortens it |
| CliqueOptimizer.BronKerbosch | src/logic_locking_optimizer.cpp:195-233 | with R a clique, P its untried extensions and every extension in P or X, every clique reported is a maximal clique, and every maximal clique containing R whose other members lie in P is reported (up to order) |
| CliqueOptimizer.ReportedAppend | src/logic_locking_optimizer.cpp:198-227 | a clique reported by an earlier branch or the current one is in the concatenated result |
| CliqueOptimizer.PivotMiss | src/logic_locking_optimizer.cpp:201-207 | a maximal clique containing R and the pivot's extension has a member outside R that the pivot does not list |
| CliqueOptimizer.BranchPending | src/logic_locking_optimizer.cpp:208-231 | after the branch on v, the maximal cliques still to report are those through the remaining candidates |
| CliqueOptimizer.OnlyR | src/logic_locking_optimizer.cpp:197-199 | with no candidates left, the only maximal clique within R is R itself, which is reported |
| CliqueOptimizer.SkipStep | src/logic_locking_optimizer.cpp:204-207 | a candidate the pivot lists is skipped and the loop invariant holds |
| CliqueOptimizer.BranchStep | src/logic_locking_optimizer.cpp:208-231 | a candidate the pivot does not list is branched on, then moved from P to X, and the loop invariant holds |
| CliqueOptimizer.PivotCloses | src/logic_locking_optimizer.cpp:201-233 | once every candidate the pivot does not list is tried, every maximal clique containing R within P has been reported |
| CliqueOptimizer.CliqueSubset | src/logic_locking_optimizer.cpp:189-191 | distinct nodes drawn from a clique form a clique |
| CliqueOptimizer.ExtendsMembers | src/logic_locking_optimizer.cpp:189-191 | maximality depends only on the members of a clique |
| CliqueOptimizer.SortedClique | src/logic_locking_optimizer.cpp:189-191 | sorting a maximal clique gives an increasing maximal clique |
| CliqueOptimizer.ListMaximalCliques | src/logic_locking_optimizer.cpp:180-193 | every list returned is sorted, in range, a clique and maximal; every maximal clique of the graph is reported, and in sorted form it is in the result |
| CliqueOptimizer.IncreasingSameMembers | src/logic_locking_optimizer.cpp:189-191 | two increasing lists with the same members are equal, so the sorted form of a clique is unique |
| CliqueOptimizer.Flatten | src/logic_locking_optimizer.cpp:272-281 | every node of every group is in the flattened list |
| CliqueOptimizer.FlattenSplit | src/logic_locking_optimizer.cpp:272-281 | flattening splits over any cut of the groups |
| CliqueOptimizer.FlattenSolution | src/logic_locking_optimizer.cpp:272-281 | the loops concatenate the groups' nodes, group by group |
| CliqueOptimizer.RepeatSpoils | src/logic_locking_optimizer.cpp:105-108 | a node met again while scanning makes the flattened solution repeat a value |
| CliqueOptimizer.CheckSolution | src/logic_locking_optimizer.cpp:97-114 | check(sol) passes exactly when every node is in range, no node appears twice and every group is a clique; a failure carries one of its three messages |
| CliqueOptimizer.PickLargest | src/logic_locking_optimizer.cpp:242-247 | the scan returns FirstLargest: a largest clique, the earliest on ties |
| CliqueOptimizer.FirstLargest | src/logic_locking_optimizer.cpp:242-247 | the index of the first clique of largest size: no clique is larger, and every earlier one is smaller |
| CliqueOptimizer.Without | src/logic_locking_optimizer.cpp:256-263 | the cleaned clique keeps exactly its members not in the picked clique |
| CliqueOptimizer.WithoutIncreasing | src/logic_locking_optimizer.cpp:256-263 | cleaning keeps a clique increasing |
| CliqueOptimizer.CleanClique | src/logic_locking_optimizer.cpp:257-263 | the loop keeps the nodes the binary search does not find among the picked nodes |
| CliqueOptimizer.CleanAll | src/logic_locking_optimizer.cpp:256-264 | every clique of the pool is cleaned |
| CliqueOptimizer.NonEmpty | src/logic_locking_optimizer.cpp:266-267 | remove_if keeps exactly the non-empty cliques |
| CliqueOptimizer.PickKeepsValid | src/logic_locking_optimizer.cpp:248-254 | adding a prefix of a pooled clique keeps the solution valid |
| CliqueOptimizer.CleanKeepsPool | src/logic_locking_optimizer.cpp:255-267 | cleaning the pool against the picked nodes keeps it disjoint from the solution |
| CliqueOptimizer.Truncate | src/logic_locking_optimizer.cpp:249-251 | the pop_back loop leaves the first min(size, budget) nodes of the clique |
| CliqueOptimizer.RoundPick | src/logic_locking_optimizer.cpp:248-251 | the picked group has min(size, budget left) nodes and is a prefix of the first largest clique |
| CliqueOptimizer.Cleaned | src/logic_locking_optimizer.cpp:255-264 | every clique of the pool loses the picked nodes, position by position |
| CliqueOptimizer.EmptyPickEmptiesPool | src/logic_locking_optimizer.cpp:248-267 | an empty pick can only come from an empty largest clique, and then the pool empties |
| CliqueOptimizer.PackRound | src/logic_locking_optimizer.cpp:241-267 | one round takes RoundPick (the earliest largest clique truncated to the remaining budget), adds its size to the count and leaves RoundPool: every clique cleaned of the picked nodes, empty ones dropped |
| CliqueOptimizer.RoundKeepsPacking | src/logic_locking_optimizer.cpp:240-268 | each round keeps the solution valid, within budget and largest first, and makes progress |
| CliqueOptimizer.LargestFirst | src/logic_locking_optimizer.cpp:241-254 | appending a group no larger than the last keeps the groups in non-increasing size |
| CliqueOptimizer.SolveBruteForce | src/logic_locking_optimizer.cpp:235-270 | the pool is exactly the sorted maximal cliques, and the result is Pack of that pool: it passes check(sol), stays within maxNumber, comes largest first, and when it stops under the budget every node of every maximal clique is in it |
| CliqueOptimizer.RoundCovers | src/logic_locking_optimizer.cpp:255-267 | the nodes of the maximal cliques are each either used or still pooled, and a round keeps it so |
| CliqueOptimizer.PackDone | src/logic_locking_optimizer.cpp:240 | when the loop stops the solution is Pack's result, and if the budget is not spent every node of every maximal clique is used |
| DelayAnalysis.Endpoints | src/delay_analyzer.cpp:30-37 | the cells of the dependency pairs in scan order, driver then cell, pair by pair |
| DelayAnalysis.Assign | src/delay_analyzer.cpp:31-36 | a cell without an id gets the next one, and a numbered cell keeps its id; the ids stay exactly 0..n-1, one per cell |
| DelayAnalysis.NumberNodes | src/delay_analyzer.cpp:24-37 | the i-th locked cell gets id i, every other cell of the pairs a fresh id in order of first appearance, and no other cell is numbered |
| DelayAnalysis.NumberDependencyCells | src/delay_analyzer.cpp:29-37 | the scan of the pairs keeps the locked cells' ids and numbers each new endpoint on first sight |
| DelayAnalysis.NumberEndpoint | src/delay_analyzer.cpp:31-36 | numbering one more endpoint keeps the scan's invariant |
| DelayAnalysis.FreshKeepsOrder | src/delay_analyzer.cpp:30-37 | a cell appearing later gets a larger id than every cell before it |
| DelayAnalysis.DepsIntoEdges | src/delay_analyzer.cpp:39-43 | an edge into a node exists exactly when some pair drives that cell from that driver, with the unit wire delay |
| DelayAnalysis.DepsIntoInRange | src/delay_analyzer.cpp:39-43 | every driver of an edge list is a node id |
| DelayAnalysis.BuildDependencies | src/delay_analyzer.cpp:38-43 | one list per node, each holding one edge per dependency pair into that node, in pair order |
| DelayAnalysis.UnvisitedMark | src/delay_analyzer.cpp:65 | marking an unvisited node leaves one fewer unvisited |
| DelayAnalysis.PushUnvisited | src/delay_analyzer.cpp:58-62 | the inner loop pushes the drivers not yet visited |
| DelayAnalysis.StackRunKeepsSize | src/delay_analyzer.cpp:54-66 | the stack loop keeps one visited flag per node |
| DelayAnalysis.SortAsWritten | src/delay_analyzer.cpp:46-69 | the search loops as written compute the order as written: the reversed visit list of each search, appending a node on every pop |
| DelayAnalysis.Search | src/delay_analyzer.cpp:51-66 | one search runs the stack loop from node i |
| DelayAnalysis.PushDeps | src/delay_analyzer.cpp:58-62 | the inner loop pushes the unvisited drivers in list order |
| DelayAnalysis.PopUnvisited | src/delay_analyzer.cpp:55-65 | popping an unvisited node pushes its unvisited drivers, marks it and appends it to the visit list |
| DelayAnalysis.PopVisited | src/delay_analyzer.cpp:55-65 | popping a node already visited appends it to the visit list again |
| DelayAnalysis.CrossedDriversPop0 | src/delay_analyzer.cpp:54-66 | first pop of the crossed-drivers example: node 0 pushes its drivers 1 and 2 |
| DelayAnalysis.CrossedDriversPop2 | src/delay_analyzer.cpp:54-66 | second pop: node 2 has no driver |
| DelayAnalysis.CrossedDriversPop1 | src/delay_analyzer.cpp:54-66 | third pop: node 1's driver 2 is already visited, and the search ends with visit list [0, 2, 1] |
| DelayAnalysis.DriverAfterCell | src/delay_analyzer.cpp:46-69 | with pairs (b, a), (c, a), (c, b) and a locked, the order as written is [1, 2, 0]: node 1 comes before its driver 2 |
| DelayAnalysis.SharedDriverPop0 | src/delay_analyzer.cpp:54-66 | first pop of the shared-driver example: node 0 pushes its drivers 1 and 2 |
| DelayAnalysis.SharedDriverPop2 | src/delay_analyzer.cpp:54-66 | second pop: node 2 pushes its still unvisited driver 1 a second time |
| DelayAnalysis.SharedDriverPop1 | src/delay_analyzer.cpp:54-66 | node 1 is popped twice and appended twice |
| DelayAnalysis.RepeatedNode | src/delay_analyzer.cpp:46-70 | with pairs (b, a), (c, a), (b, c) and a locked, the order as written is [1, 1, 2, 0]: four entries for three nodes |
| DelayAnalysis.NodeToOrder | src/delay_analyzer.cpp:73-76 | nodeToOrder has one entry per node |
| DelayAnalysis.NodeToOrderPositions | src/delay_analyzer.cpp:73-76 | in an order without repeats, nodeToOrder gives each node's position |
| DelayAnalysis.DriverAfterCellFailsCheck | src/delay_analyzer.cpp:73-81 | the first example fails the assert of line 79 on its edge from 2 to 1 |
| DelayAnalysis.RepeatedNodeFailsCheck | src/delay_analyzer.cpp:70 | the second example fails the assert of line 70 on its length |
| DelayAnalysis.Visit | src/delay_analyzer.cpp:46-69 | the intended depth-first visit places a node after all its drivers and never twice |
| DelayAnalysis.VisitDriver | src/delay_analyzer.cpp:58-62 | visiting each driver before the node keeps the search's invariant |
| DelayAnalysis.Nodes | src/delay_analyzer.cpp:47 | the node ids 0..n-1 |
| DelayAnalysis.DistinctCard | src/delay_analyzer.cpp:70 | a list without repeats has as many entries as distinct members |
| DelayAnalysis.ExactCover | src/delay_analyzer.cpp:70 | an order that places every node once has exactly n entries |
| DelayAnalysis.ClosedPassesCheck | src/delay_analyzer.cpp:70-81 | an order without repeats that covers every node and places drivers first passes both asserts |
| DelayAnalysis.TopologicalSort | src/delay_analyzer.cpp:45-81 | the intended sort places every node exactly once, each after its drivers, so it passes the constructor's own check on an acyclic graph |
| DelayAnalysis.AdditionalDelay | src/delay_analyzer.cpp:87-90 | each node's own delay is the cell delay plus the lock delay once per occurrence in the solution |
| DelayAnalysis.LatestInputIsLatest | src/delay_analyzer.cpp:92-95 | the latest input of a node is the largest driver arrival plus wire delay, and 0 without drivers |
| DelayAnalysis.ArrivalMonotone | src/delay_analyzer.cpp:86-98 | more delay on some nodes never makes any arrival earlier |
| DelayAnalysis.LatestInputMonotone | src/delay_analyzer.cpp:92-95 | more delay on some nodes never makes a latest input earlier |
| DelayAnalysis.MaxElement | src/delay_analyzer.cpp:99 | std::max_element of a non-empty list is a member no smaller than any other |
| DelayAnalysis.ArrivalTimes | src/delay_analyzer.cpp:86-98 | the arrival time of every node |
| DelayAnalysis.SolutionDelay | src/delay_analyzer.cpp:84-100 | the delay of a solution is the latest arrival over all nodes, attained by some node |
| DelayAnalysis.MoreLocksNoFaster | src/delay_analyzer.cpp:84-100 | locking more positions never lowers the delay |
| DelayAnalysis.ArrivalCoversOwnDelay | src/delay_analyzer.cpp:92-97 | every node arrives no earlier than its own cell and lock delays |
| DelayAnalysis.LatestInputOf | src/delay_analyzer.cpp:92-95 | the inner loop computes the latest input from the drivers' arrivals |
| DelayAnalysis.Propagate | src/delay_analyzer.cpp:91-98 | the loop along a topological order computes every node's arrival |
| DelayAnalysis.AddLockDelays | src/delay_analyzer.cpp:87-90 | the first loop adds the lock delay once per entry of the solution |
| DelayAnalysis.BuiltRanked | src/delay_analyzer.cpp:38-43 | when the dependency pairs form no cycle, the timing edges do not either |
| DelayAnalysis.DelayAnalyzer.constructor | src/delay_analyzer.cpp:13-82 | the locked cells get ids 0..\|cells\|-1, the numbered cells are exactly the locked cells and the cells of the pairs, the ids are exactly 0..nbNodes()-1 with one cell each (cellOf inverts cellToNode), each new endpoint is numbered in order of first appearance, one edge per pair, and the node order is the intended topological sort |
| DelayAnalysis.DelayAnalyzer.Delay | src/delay_analyzer.cpp:84-100 | delay(sol) is the latest arrival time with a key gate on each solution entry |
| GateInsertion.GetPortFinds | src/gate_insertion.cpp:28 | getPort finds a wire exactly when the port is connected, and that wire is the port's connection |
| GateInsertion.SetPort | src/gate_insertion.cpp:33-34 | unsetPort then setPort keeps the cell's outputs and number of connections |
| GateInsertion.SetPortConns | src/gate_insertion.cpp:33-34 | the named port now carries the new wire and every other connection is unchanged |
| GateInsertion.OutputPortName | src/gate_insertion.cpp:95-103 | get_output_portname returns a connected output port, or the "No output port found" error |
| GateInsertion.OutputPortNameFails | src/gate_insertion.cpp:95-103 | get_output_portname fails exactly when no connected port is an output |
| GateInsertion.XorLockTransparent | src/gate_insertion.cpp:38-42 | the XOR/XNOR key gate passes the locked signal through exactly when the key bit equals the valid value, and inverts it otherwise |
| GateInsertion.MuxLockSelects | src/gate_insertion.cpp:72-76 | the MUX key gate gives the locked signal under the valid key bit and the mixed signal otherwise |
| GateInsertion.MuxAssertRejectsValidPair | src/gate_insertion.cpp:58-59 | an AND cell with output Y mixed with a flip-flop with output Q passes the intended checks, but the check as written asks the AND cell about port Q and aborts |
| GateInsertion.MixPortsPassChecks | src/gate_insertion.cpp:157-159 | the ports mix_gates picks always pass the intended checks |
| GateInsertion.Module.constructor | src/gate_insertion.cpp:25-43 | a module with the given cells, wires and inputs and no key gate yet |
| GateInsertion.Module.AddWire | src/gate_insertion.cpp:31 | addWire creates exactly one fresh wire and changes nothing else |
| GateInsertion.Module.AddKeyInput | src/gate_insertion.cpp:82-90 | add_key_input creates one fresh wire and appends it to the input ports |
| GateInsertion.RewireKeepsValid | src/gate_insertion.cpp:33-34 | rewiring one port to an existing wire keeps the cells well formed |
| GateInsertion.GrowKeepsValid | src/gate_insertion.cpp:31 | a fresh wire keeps the cells well formed |
| GateInsertion.InsertXorLockingGate | src/gate_insertion.cpp:25-43 | the locked port moves to a fresh wire, and a XOR (valid value 0) or XNOR (valid value 1) of that wire and the key drives the port's former wire |
| GateInsertion.InsertMuxLockingGate | src/gate_insertion.cpp:56-77 | with the intended checks, cell 1's port moves to a fresh wire and a MUX between that wire and cell 2's output, selected by the key, drives the port's former wire |
| GateInsertion.Ports | src/gate_insertion.cpp:97 | the port names of a cell, one per connection |
| GateInsertion.OutputPortNameByPorts | src/gate_insertion.cpp:95-103 | the chosen output port depends only on the port names and which are outputs |
| GateInsertion.SetPortKeepsPorts | src/gate_insertion.cpp:33-34 | rewiring keeps a cell's port names and outputs |
| GateInsertion.Rewire | src/gate_insertion.cpp:119 | moving a cell's output port to a new wire keeps the set of cell names |
| GateInsertion.LockedCells | src/gate_insertion.cpp:114-120 | the cells after k steps of the loop keep the set of cell names |
| GateInsertion.LockedGates | src/gate_insertion.cpp:114-120 | k steps of lock_gates append k gates |
| GateInsertion.Firsts | src/gate_insertion.cpp:155 | the first cells of the pairs, in order |
| GateInsertion.MixedGates | src/gate_insertion.cpp:151-160 | k steps of mix_gates append k gates |
| GateInsertion.GetSetPort | src/gate_insertion.cpp:33-34 | after setPort the port reads back the new wire |
| GateInsertion.LockedCellsElsewhere | src/gate_insertion.cpp:114-120 | a cell not among the first k names is untouched by the first k steps |
| GateInsertion.LockedCellsAfter | src/gate_insertion.cpp:114-120 | with distinct names, the steps after step j leave cell names[j] alone |
| GateInsertion.LockedTie | src/gate_insertion.cpp:114-120 | with distinct names, after k > j steps cell names[j]'s output reads wire w0 + 2j + 1, and gate j is the XOR/XNOR keyed by wire w0 + 2j for key value j driving the wire that cell drove at the start |
| GateInsertion.LockedGatesPrefix | src/gate_insertion.cpp:114-120 | later steps keep the first j gates |
| GateInsertion.MixedTie | src/gate_insertion.cpp:151-160 | with distinct first cells, and pair j's second cell not an earlier first cell, MUX j drives the wire pair j's first cell drove at the start and mixes in the second cell's original output wire |
| GateInsertion.MixedGatesPrefix | src/gate_insertion.cpp:151-160 | later steps keep the first j MUX gates |
| GateInsertion.LockTraceStep | src/gate_insertion.cpp:114-120 | one step as LockOne performs it (key wire, rewired cell, appended gate) follows the step functions |
| GateInsertion.MixTraceStep | src/gate_insertion.cpp:151-160 | one step as MixOne performs it follows the step functions |
| GateInsertion.LockingStart | src/gate_insertion.cpp:113 | before the first step nothing is locked |
| GateInsertion.ValidStep | src/gate_insertion.cpp:116-119 | a key input, then one cell rewired to a second fresh wire, keeps the module well formed |
| GateInsertion.ShapeStep | src/gate_insertion.cpp:119 | rewiring one cell keeps the cells' port names |
| GateInsertion.KeysStep | src/gate_insertion.cpp:116-117 | each key input is a fresh wire, different from all earlier ones |
| GateInsertion.GatesStep | src/gate_insertion.cpp:115-119 | the new key gate is keyed by the new key input with valid value key_values[i] |
| GateInsertion.LockingStep | src/gate_insertion.cpp:114-120 | one more locked cell keeps the loop's invariant |
| GateInsertion.LockOne | src/gate_insertion.cpp:115-119 | one iteration adds a key input and a key gate, and fails exactly when the cell has no output port |
| GateInsertion.LockLoopStep | src/gate_insertion.cpp:114-120 | one successful loop step, stated on the module's fields before and after: the loop state (fresh increasing keys, valid cells, same shape, inputs and gates extended, the step functions' cells and gates, output ports of the cells so far) holds one cell further |
| GateInsertion.LockNext | src/gate_insertion.cpp:114-120 | the loop body fails exactly when the cell has no output port, and otherwise moves the loop state one step along the step functions (LockLoopState), keeping the earlier gates as a prefix |
| GateInsertion.LockLoop | src/gate_insertion.cpp:113-121 | the loop succeeds exactly when every cell has an output port, and then returns one key per cell with the loop state after every cell |
| GateInsertion.LockGates | src/gate_insertion.cpp:108-122 | more cells than key values is an error with nothing changed (extra values are ignored); otherwise key k is wire w0 + 2k, the cells are LockedCells (cell k's output moved to wire w0 + 2k + 1) and the gates appended are LockedGates: gate k is the XOR/XNOR for key value k driving the wire cell k drove before |
| GateInsertion.MixOne | src/gate_insertion.cpp:152-159 | one iteration adds a key input and a MUX, and fails exactly when either cell has no output port |
| GateInsertion.MixLoopStep | src/gate_insertion.cpp:151-160 | one successful mix step, stated on the module's fields before and after: the loop state (fresh increasing keys, valid cells, same shape, MUX gates appended, the step functions' cells and gates, output ports of the pairs so far) holds one pair further |
| GateInsertion.MixNext | src/gate_insertion.cpp:151-160 | the loop body fails exactly when either cell has no output port, and otherwise moves the loop state one step along the step functions (MixLoopState) |
| GateInsertion.MixLoop | src/gate_insertion.cpp:150-161 | the loop succeeds exactly when both cells of every pair have output ports, and then returns one key per pair with the loop state after every pair |
| GateInsertion.MixGates | src/gate_insertion.cpp:145-162 | a pair count different from the number of key values is an error with nothing changed; otherwise key k is wire w0 + 2k, the first cells are rewired as LockedCells says and the gates appended are MixedGates: MUX k, for key value k, drives the wire pair k's first cell drove before and mixes in the second cell's output wire |
| GateInsertion.FirstMissing | src/gate_insertion.cpp:130-138 | a reported name has no cell |
| GateInsertion.FirstMissingSpec | src/gate_insertion.cpp:130-138 | no name is reported exactly when every name resolves, and otherwise the first unresolved one |
| GateInsertion.FindMissing | src/gate_insertion.cpp:130-138 | the lookup loop stops at the first missing name |
| GateInsertion.LockGatesByName | src/gate_insertion.cpp:127-140 | a missing cell is reported by name before anything changes; otherwise lock_gates on the cells, with the same cells and gates as LockGates states |
| GateInsertion.FirstMissingInPairs | src/gate_insertion.cpp:170-180 | a reported name has no cell |
| GateInsertion.FirstMissingInPairsSpec | src/gate_insertion.cpp:170-180 | no name is reported exactly when both names of every pair resolve; otherwise the first unresolved name, the first cell's before the second's |
| GateInsertion.FindMissingInPairs | src/gate_insertion.cpp:170-180 | the lookup loop of mix_gates by name |
| GateInsertion.MixGatesByName | src/gate_insertion.cpp:167-182 | a missing cell is reported by name before anything changes; otherwise mix_gates on the pairs, with the same cells and gates as MixGates states |
| Sensitivity.DocumentedLane | src/yosys_plugin.cpp:357-358 | lane k of the word-wide documented condition is the one-bit sensitivity condition on lane k |
| Sensitivity.ChangedLanes | src/yosys_plugin.cpp:357 | the lanes where toggling a changes the output, with b untoggled or toggled, are the one-bit condition lane by lane |
| Sensitivity.SensitivityAgreementSound | src/logic_locking_analyzer.cpp:727-729 | when the complemented words the analyzer compares agree, the documented sensitivities of a and b agree on every lane |
| Sensitivity.SensitivityAgreementComplete | src/logic_locking_analyzer.cpp:727-729 | when the documented sensitivities agree on every lane, the analyzer's words agree, so its test is exactly the documented condition |
| Sensitivity.TestedToDocumented | src/logic_locking_analyzer.cpp:727-729 | agreement of the tested words implies agreement of the documented ones |
| Sensitivity.DocumentedToTested | src/logic_locking_analyzer.cpp:727-729 | agreement of the documented words implies agreement of the tested ones |
| Sensitivity.SameTotalChange | src/logic_locking_analyzer.cpp:723-728 | toggling a then b and toggling b then a change the same lanes in total: (none ⊕ a) ⊕ (b ⊕ both) = (none ⊕ b) ⊕ (a ⊕ both) |
| Sensitivity.OrFromNand | src/logic_locking_analyzer.cpp:727-729 | for two pairs with the same exclusive or, agreement of the "not both" words gives agreement of the "either" words |
| Sensitivity.NandFromOr | src/logic_locking_analyzer.cpp:727-729 | and conversely |
| Analyzer.Sig | src/logic_locking_analyzer.cpp:313-322 | a valid port's signal is the literal recorded for its wire |
| Analyzer.Needs | src/logic_locking_analyzer.cpp:328-393 | every translated type needs its A input, plus B, C, D or S as its branch requires |
| Analyzer.MuxNeverInvertedAsWritten | src/logic_locking_analyzer.cpp:361-366 | no cell type reaching the mux branch passes the inversion test as written, which names $_NMUX without the trailing underscore |
| Analyzer.MuxBranchAsWritten | src/logic_locking_analyzer.cpp:361-369 | as written, the mux branch gives the mux literal itself, for $_NMUX_ as for $_MUX_ |
| Analyzer.NmuxAsWrittenIsNotInverted | src/logic_locking_analyzer.cpp:361-369 | with all three inputs false, a $_NMUX_ translated as written evaluates to false where the cell drives true |
| Analyzer.SimpleBuildComputes | src/logic_locking_analyzer.cpp:328-360 | NOT/BUF and the two-input cells compute ¬a, a, AND, NAND, OR, NOR, XOR, XNOR, a ∧ ¬b and a ∨ ¬b in a checked extension of the graph |
| Analyzer.MuxBuildComputes | src/logic_locking_analyzer.cpp:361-369 | mux cells select B when S is set and A otherwise; the corrected $_NMUX_ is the complement |
| Analyzer.Build3Computes | src/logic_locking_analyzer.cpp:370-381 | AOI3 computes ¬((a ∧ b) ∨ c) and OAI3 computes ¬((a ∨ b) ∧ c) |
| Analyzer.InnerPairComputes | src/logic_locking_analyzer.cpp:384-390 | the two inner gates of AOI4/OAI4 compute their AND or OR |
| Analyzer.Build4Computes | src/logic_locking_analyzer.cpp:382-393 | AOI4 computes ¬((a ∧ b) ∨ (c ∧ d)) and OAI4 computes ¬((a ∨ b) ∧ (c ∨ d)) |
| Analyzer.BuildComputes | src/logic_locking_analyzer.cpp:328-393 | every translated type builds a checked extension of the graph whose new literal computes the cell's documented function |
| Analyzer.BuildExtends | src/logic_locking_analyzer.cpp:328-393 | building never breaks the graph, and the new literal is in range |
| Analyzer.MapGrows | src/logic_locking_analyzer.cpp:332-367 | recording the new literal keeps every literal of the map in range |
| Analyzer.ConvertComputes | src/logic_locking_analyzer.cpp:298-401 | when a cell is translated, Y's new literal computes the cell's function of the values on its inputs, the graph stays checked, and the existing literals keep their values |
| Analyzer.LogicLockingAnalyzer.constructor | src/logic_locking_analyzer.cpp:166-184 | the first steps of init_aig: an empty graph with one input per combinational input, the constants mapped (undefined states to zero), each input bit mapped to its input literal on first occurrence and marked dirty |
| Analyzer.LogicLockingAnalyzer.CellToAig | src/logic_locking_analyzer.cpp:298-401 | a non-evaluable cell, a Y already mapped or a missing input leaves everything unchanged; an evaluable unsupported type is an error; otherwise Y gets the new literal, becomes dirty and the cell becomes its driver |
| Analyzer.LogicLockingAnalyzer.BuildGates | src/logic_locking_analyzer.cpp:328-393 | the builder calls of the dispatch build the gates Build describes on the object graph |
| Analyzer.FlattenAt | src/logic_locking_analyzer.cpp:656-665 | word j of row i sits right after the words of the rows before i |
| Analyzer.FlattenCorruptionData | src/logic_locking_analyzer.cpp:656-665 | flattenCorruptionData concatenates the rows in order |
| Analyzer.MergeCorruptionData | src/logic_locking_analyzer.cpp:667-678 | mergeCorruptionData gives, per row, all ones when some word is nonzero and 0 otherwise |
| Analyzer.ComputeOutputCorruptionData | src/logic_locking_analyzer.cpp:687-700 | entry [o][tv] is the toggled output word XOR the untoggled one, one entry per output per test vector |
| Analyzer.ColumnEntries | src/logic_locking_analyzer.cpp:690-698 | the row of output o holds one XOR word per test vector, in order |
| Analyzer.MergedCorruptionFlagsChangedOutputs | src/logic_locking_analyzer.cpp:667-700 | merging the corruption table flags exactly the outputs that toggling changed on some lane of some test vector |
| Analyzer.XorZeroMeansEqual | src/logic_locking_analyzer.cpp:695 | a corruption word is 0 exactly when the two simulations agree |
| Analyzer.IsPairwiseSecure | src/logic_locking_analyzer.cpp:713-740 | the pair is secure exactly when the sensitivities agree on every output of every test vector and, with ignore_duplicates, toggling a and toggling b do not have the same impact everywhere |
| Analyzer.PairwiseSecureGraph | src/logic_locking_analyzer.cpp:742-756 | exactly the pairs i < j accepted by the test are listed, in lexicographic order |
| MiniAig.Lit.Inv | src/mini_aig.hpp:24 | inv keeps the variable and flips the polarity |
| MiniAig.FromData | src/mini_aig.hpp:20-32 | a packed word decodes to the literal that packs back to it |
| MiniAig.DataRoundTrip | src/mini_aig.hpp:20-21 | unpacking a literal's packed word gives the literal back |
| MiniAig.InvData | src/mini_aig.hpp:24 | inv flips bit 0 of the packed word (data ^ 1) |
| MiniAig.Zero | src/mini_aig.hpp:26 | zero is the constant literal with packed word 0 |
| MiniAig.One | src/mini_aig.hpp:27 | one is the inverted constant literal with packed word 1 |
| MiniAig.GetInput | src/mini_aig.hpp:59 | the literal of input i is the positive literal of variable i + 1 |
| MiniAig.PosLit | src/mini_aig.hpp:80 | addAnd's result is the positive literal of the new variable |
| MiniAig.InvInvolutive | src/mini_aig.hpp:24 | inverting twice gives the literal back |
| MiniAig.ConstantsAreZeroAndOne | src/mini_aig.hpp:26-28 | is_constant holds exactly for zero and one |
| MiniAig.ToggleMask | src/mini_aig.hpp:111-113 | ~t + 1 is all ones for t = 1 and zero for t = 0 |
| MiniAig.ComplementTwice | src/mini_aig.hpp:114-120 | complementing twice with the same flag is the identity |
| MiniAig.ComplementFlip | src/mini_aig.hpp:114 | complementing with the opposite flag gives the opposite word |
| MiniAig.MaskComplements | src/mini_aig.hpp:114 | xor with the toggle mask complements exactly when the flag is set |
| MiniAig.MaskComplementsLeft | src/mini_aig.cpp:36-42 | the same with the mask on the left, as simulateWithToggling writes it |
| MiniAig.LitValueInv | src/mini_aig.hpp:108-115 | the two polarities of a variable read complementary words |
| MiniAig.OutputValues | src/mini_aig.cpp:47-54 | one value per declared output, each the value its literal reads |
| MiniAig.Values | src/mini_aig.cpp:8-19 | the reference state has one value per variable, each the reference value of that variable |
| MiniAig.LoadInputs | src/mini_aig.cpp:12-14 | the input loop keeps the size of the state |
| MiniAig.LoadStep | src/mini_aig.cpp:12-37 | one more step of the input loop stores input i in slot i + 1 |
| MiniAig.RunNodes | src/mini_aig.cpp:15-43 | the node loop keeps the size of the state |
| MiniAig.RunNodesStep | src/mini_aig.cpp:15-43 | one more step of the node loop stores the AND of the words node k's fanins read |
| MiniAig.AcyclicInRange | src/mini_aig.hpp:124-140 | a graph that passes check() has every fanin in range of the state |
| MiniAig.RunNodesComputesValue | src/mini_aig.cpp:15-17 | after k steps of the node loop the constant, the inputs and the first k nodes hold their reference values |
| MiniAig.RunNodesKeepsLater | src/mini_aig.cpp:15-17 | nodes the loop has not reached keep their old words |
| MiniAig.RunNodesComputesValues | src/mini_aig.cpp:15-17 | on a checked graph the whole node loop leaves exactly the reference state |
| MiniAig.ToggledInputIsFlippedInput | src/mini_aig.cpp:32-37 | toggling input i is simulating with input i complemented |
| MiniAig.Map | src/mini_aig.cpp:8-19 | the mapped vector has the same length and maps each element |
| MiniAig.SimulationCommutes | src/mini_aig.cpp:8-19 | evaluation commutes with any map preserving AND and complement |
| MiniAig.ComplementCommutes | src/mini_aig.cpp:42 | such a map commutes with the toggle complement |
| MiniAig.EvalBool | src/mini_aig.cpp:47-54 | the one-bit evaluation gives one value per output, the value its literal reads |
| MiniAig.Lane | src/mini_aig.cpp:8-19 | lane k of a vector of words, element by element |
| MiniAig.LaneAnd | src/mini_aig.cpp:16 | lane k of an AND of words is the AND of the lanes |
| MiniAig.LaneNot | src/mini_aig.hpp:112-114 | lane k of a complemented word is the complemented lane |
| MiniAig.LaneIsHomomorphism | src/mini_aig.cpp:8-19 | taking lane k preserves AND and complement |
| MiniAig.BitComplement | src/mini_aig.hpp:114 | lane k of a complemented word is flipped exactly when the flag is set |
| MiniAig.LitCommutes | src/mini_aig.cpp:8-19 | a literal of the mapped simulation reads the mapped value of that literal |
| MiniAig.LaneCommutes | src/mini_aig.cpp:8-19 | lane k of a literal of the word simulation reads the same as in the simulation of lane k |
| MiniAig.LitLane | src/mini_aig.cpp:8-19 | lane k of a literal of the 64-lane simulation is that literal in the one-bit simulation of lane k |
| MiniAig.OutputLanes | src/mini_aig.cpp:8-54 | lane k of the simulated outputs is the one-bit evaluation of lane k of the inputs: 64 independent simulations |
| MiniAig.ExtendKeepsAcyclic | src/mini_aig.hpp:124-140 | a prefix of a checked graph is checked |
| MiniAig.ExtendKeepsValues | src/mini_aig.hpp:75-81 | appending nodes never changes the value of an existing variable |
| MiniAig.AndGateComputes | src/mini_aig.hpp:75-81 | addAnd keeps the graph checked and its literal evaluates to a ∧ b |
| MiniAig.ExtendsTrans | src/mini_aig.hpp:83-93 | growing a graph twice grows it |
| MiniAig.ExtendKeepsLit | src/mini_aig.hpp:83-93 | a literal keeps its value when the graph grows |
| MiniAig.NandGateComputes | src/mini_aig.hpp:83 | addNand's literal evaluates to ¬(a ∧ b) |
| MiniAig.NorGateComputes | src/mini_aig.hpp:85 | addNor's literal evaluates to ¬a ∧ ¬b |
| MiniAig.OrGateComputes | src/mini_aig.hpp:87 | addOr's literal evaluates to a ∨ b |
| MiniAig.XorGateComputes | src/mini_aig.hpp:89 | addXor's literal evaluates to a ≠ b |
| MiniAig.XnorGateComputes | src/mini_aig.hpp:91 | addXnor's literal evaluates to a = b |
| MiniAig.MuxGateComputes | src/mini_aig.hpp:93 | addMux's literal selects b when s holds and a otherwise |
| MiniAig.BufferGateComputes | src/mini_aig.hpp:98-103 | addBuffer, and addNot as written, evaluate to a itself |
| MiniAig.NotGateComputes | src/mini_aig.hpp:100-103 | the corrected addNot, AND(¬a, ¬a), evaluates to ¬a |
| MiniAig.AddNotIsNotAnInverter | src/mini_aig.hpp:103 | on a one-input graph addNot as written returns true for the input true |
| MiniAig.ReadLit | src/mini_aig.hpp:108-115 | the stored word xor the polarity mask is the word the literal reads |
| MiniAig.MiniAIG.Graph | src/mini_aig.hpp:163-166 | the object's graph has its inputs, nodes and outputs |
| MiniAig.MiniAIG.constructor | src/mini_aig.hpp:44 | a fresh simulator has the given inputs, no nodes, no outputs and a zero state of nbInputs + 1 words |
| MiniAig.MiniAIG.AddOutput | src/mini_aig.hpp:64 | the literal is appended to the outputs; nothing else changes |
| MiniAig.MiniAIG.ResetState | src/mini_aig.hpp:66-70 | the state becomes one zero word per variable |
| MiniAig.MiniAIG.AddAnd | src/mini_aig.hpp:75-81 | one node is appended, the state grows by one word, and the positive literal of the new variable is returned |
| MiniAig.MiniAIG.AddNand | src/mini_aig.hpp:83 | the object graph becomes the NAND construction |
| MiniAig.MiniAIG.AddNor | src/mini_aig.hpp:85 | the object graph becomes the NOR construction |
| MiniAig.MiniAIG.AddOr | src/mini_aig.hpp:87 | the object graph becomes the OR construction |
| MiniAig.MiniAIG.AddXor | src/mini_aig.hpp:89 | the object graph becomes the XOR construction |
| MiniAig.MiniAIG.AddXnor | src/mini_aig.hpp:91 | the object graph becomes the XNOR construction |
| MiniAig.MiniAIG.AddMux | src/mini_aig.hpp:93 | the object graph becomes the MUX construction |
| MiniAig.MiniAIG.AddBuffer | src/mini_aig.hpp:98 | the object graph becomes AND(a, a) |
| MiniAig.MiniAIG.AddNot | src/mini_aig.hpp:103 | as written, the object graph becomes the same AND(a, a) as a buffer |
| MiniAig.MiniAIG.GetValue | src/mini_aig.hpp:108-115 | the word the literal reads from the state |
| MiniAig.MiniAIG.SetValue | src/mini_aig.hpp:120 | only the literal's slot changes, and the literal then reads back the given word |
| MiniAig.MiniAIG.Check | src/mini_aig.hpp:124-140 | check() passes exactly when the state has one word per variable and every fanin is the constant, an input or an earlier node |
| MiniAig.MiniAIG.GetOutputValues | src/mini_aig.cpp:47-54 | one word per output, in order, polarity applied |
| MiniAig.MiniAIG.Simulate | src/mini_aig.cpp:8-19 | the state is the node loop run on the loaded inputs with constant 0; on a checked graph it is the reference state; the outputs are read from it |
| MiniAig.MiniAIG.SimulateWithToggling | src/mini_aig.cpp:21-45 | the state is the reference state with every listed variable stored complemented and the constant slot kept; the outputs are read from it |
| MiniAig.ToggleFlags | src/mini_aig.cpp:24-30 | the flag of a slot is set exactly when some listed literal names that variable |
| MiniAig.LoadedInputsHold | src/mini_aig.cpp:11-37 | after the input loop the constant and input slots hold their reference values |
| MiniAig.CopyInputs | src/mini_aig.cpp:12-14 | the input loop of simulate stores input v - 1 in slot v |
| MiniAig.LoadToggledInputs | src/mini_aig.cpp:32-37 | the input loop of simulateWithToggling stores input v - 1, complemented when toggled, in slot v |
| MiniAig.ToggledLoadStep | src/mini_aig.cpp:33-36 | one step of that loop, written with the mask as the source writes it |
| MiniAig.EvalNodes | src/mini_aig.cpp:15-17 | the node loop of simulate computes the node-loop function |
| MiniAig.EvalToggledNodes | src/mini_aig.cpp:38-43 | the node loop of simulateWithToggling computes the node-loop function with the toggles |
| MiniAig.ToggledVars | src/mini_aig.cpp:25-30 | the set holds exactly the variables of the listed literals |
| MiniAig.ToggleAboveIgnored | src/mini_aig.cpp:38-43 | toggling a variable never affects the variables before it |
| MiniAig.ToggleComplements | src/mini_aig.cpp:36-42 | a toggled variable stores the complement of what it stores untoggled |
| SatEncoding.DataCountBound | src/sat_attack.cpp:359-366 | no more data inputs than combinational inputs |
| SatEncoding.Place | src/sat_attack.cpp:443-457 | one value per combinational input |
| SatEncoding.PlaceAt | src/sat_attack.cpp:360-365 | a key-port input reads the key bit at its offset, any other reads the data input counted by the data inputs before it |
| SatEncoding.DataValues | src/sat_attack.cpp:359-366 | the values of the data slots, one per data input |
| SatEncoding.PlaceConsumesInputsInOrder | src/sat_attack.cpp:359-366 | the data inputs are consumed in order, each exactly once |
| SatEncoding.PlaceMap | src/sat_attack.cpp:359-366 | placing mapped values is mapping the placed values, so toAigInputs and aigToSat place alike |
| SatEncoding.PlaceInputs | src/sat_attack.cpp:443-457 | the placement loop with its running data index computes the placement |
| SatEncoding.PrefixDataCount | src/sat_attack.cpp:359-366 | the running index never exceeds the number of data inputs |
| SatEncoding.EvalAll | src/sat_attack.cpp:413 | the values of a vector of formulas, element by element |
| SatEncoding.EvalIsHomomorphism | src/sat_attack.cpp:369-375 | evaluation maps the AND and NOT formulas the encoding builds onto Boolean AND and NOT |
| SatEncoding.Consts | src/sat_attack.cpp:201-209 | boolVectorToSat gives one formula per bit |
| SatEncoding.ConstsEval | src/sat_attack.cpp:201-209 | each constant formula evaluates to its bit under every assignment |
| SatEncoding.VecEqMeaning | src/sat_attack.cpp:272 | vec_eq holds exactly when the two vectors take the same values, so vec_ne holds exactly when they differ |
| SatEncoding.SatisfiesAppend | src/sat_attack.cpp:399 | a list of asserted formulas holds exactly when both its parts hold |
| SatEncoding.EncodingAgreesWithSimulation | src/sat_attack.cpp:352-378 | under any assignment the literals aigToSat builds take the values of the one-bit simulation of the assigned inputs and key: the run-time check of checkSatTranslation holds always |
| SatEncoding.OutputsAgreeWithSimulation | src/sat_attack.cpp:380-389 | the output formulas evaluate to the one-bit outputs of the assigned inputs and key |
| SatEncoding.EzSat.constructor | src/sat_attack.cpp:215 | a new solver session has no variables and nothing asserted |
| SatEncoding.EzSat.Literal | src/sat_attack.cpp:220 | literal() creates one fresh variable |
| SatEncoding.EzSat.Assume | src/sat_attack.cpp:272 | assume(f) adds f to the asserted formulas |
| SatEncoding.EzSat.Solve | src/sat_attack.cpp:232 | with a correct solver: success gives the query's values under an assignment satisfying every asserted formula; failure means no assignment satisfies them |
| SatEncoding.EzSat.Literals | src/sat_attack.cpp:219-221 | n calls to literal() create the next n variables in order |
| SatEncoding.Vars | src/sat_attack.cpp:219-221 | n consecutive variables |
| SatEncoding.VarsEval | src/sat_attack.cpp:232 | the fresh variables read the matching slice of the assignment |
| SatAttackModel.Pow2 | src/sat_attack.cpp:180 | 2^n is at least 1 |
| SatAttackModel.KeyOf | src/sat_attack.cpp:180-183 | candidate i of the enumeration is a key of n bits |
| SatAttackModel.KeyValueRoundTrip | src/sat_attack.cpp:180-183 | every key of n bits is the candidate numbered by its binary value, and that number is below 2^n: the enumeration covers every key |
| SatAttackModel.KeyOfBit | src/sat_attack.cpp:182 | bit j of candidate i is (i >> j) & 1 |
| SatAttackModel.HalveTwice | src/sat_attack.cpp:182 | shifting right by one and then by j is shifting by j + 1 |
| SatAttackModel.DivUnique | src/sat_attack.cpp:182 | a quotient is determined by the bounds it satisfies |
| SatAttackModel.MulAwayFromZero | src/sat_attack.cpp:182 | a product with a nonzero factor is at least as far from zero as the other factor |
| SatAttackModel.DesignOutputs | src/sat_attack.cpp:436-441 | the design's outputs for these inputs under this key, one per output |
| SatAttackModel.DrawnVectors | src/sat_attack.cpp:150-158 | n consecutive draws of the random source |
| SatAttackModel.Take | src/sat_attack.cpp:137-140 | at most n elements of a list, in order |
| SatAttackModel.EncodeOutputs | src/sat_attack.cpp:352-389 | aigToSat then extractOutputs give one formula per output |
| SatAttackModel.KeyConstraints | src/sat_attack.cpp:391-401 | one constraint per test vector |
| SatAttackModel.KeyConstraintAt | src/sat_attack.cpp:394-399 | the constraint of one test vector holds exactly when the assigned key reproduces its recorded outputs |
| SatAttackModel.KeyConstraintsMeaning | src/sat_attack.cpp:391-401 | an assignment satisfies forceKeyCorrect's constraints exactly when its key passes every test vector |
| SatAttackModel.FormulasOps | src/sat_attack.cpp:372-374 | the formula algebra builds NOT and AND formulas |
| SatAttackModel.InputFormulas | src/sat_attack.cpp:357-366 | the constant slot and the input slots of aigToSat's list are CONST_FALSE and the placed formulas |
| SatAttackModel.NodeFormula | src/sat_attack.cpp:369-375 | node j's formula is the AND of its fanins' formulas, each negated when its literal is inverted |
| SatAttackModel.NodeFormulaSnoc | src/sat_attack.cpp:369-375 | appending node j's formula keeps the list equal to the formula simulation one variable further |
| SatAttackModel.FormulaValues | src/sat_attack.cpp:352-378 | a list that agrees with the formula simulation on every variable is that simulation |
| SatAttackModel.DistinguishMeaning | src/sat_attack.cpp:270-327 | vec_ne of the outputs under two keys holds exactly when the assigned keys give different outputs on the assigned inputs |
| SatAttackModel.VarsSplit | src/sat_attack.cpp:257-264 | two consecutive blocks of fresh variables read consecutive slices of the assignment |
| SatAttackModel.KeyQueryMeaning | src/sat_attack.cpp:211-244 | findNewValidKey's formulas hold exactly when the assignment is a key passing every test vector |
| SatAttackModel.KeyBlockMeaning | src/sat_attack.cpp:306-322 | the key constraints on a block of variables hold exactly when that slice of the assignment passes every test vector |
| SatAttackModel.DistinguishBlocks | src/sat_attack.cpp:318-327 | vec_ne over the input block holds exactly when the two keys' outputs differ on those inputs |
| SatAttackModel.SatisfiesSnoc | src/sat_attack.cpp:272-327 | asserting one more formula adds it to what must hold |
| SatAttackModel.UnsatMeansNoKey | src/sat_attack.cpp:232-237 | no assignment satisfies the key query exactly when no key passes every test vector |
| SatAttackModel.DIFromKeyQueryMeaning | src/sat_attack.cpp:246-294 | findDIFromBestKey's formulas hold exactly when the assignment is a consistent key and an input on which it disagrees with the best key |
| SatAttackModel.UnsatMeansNoDIFromKey | src/sat_attack.cpp:282-287 | unsatisfiable means every consistent key agrees with the best key on every input |
| SatAttackModel.ThreeBlocks | src/sat_attack.cpp:308-319 | three consecutive blocks of fresh variables read consecutive slices of the assignment |
| SatAttackModel.DIQueryMeaning | src/sat_attack.cpp:296-350 | findDI's formulas hold exactly when the assignment is two consistent keys and an input on which they disagree |
| SatAttackModel.UnsatMeansNoDI | src/sat_attack.cpp:337-342 | unsatisfiable means all consistent keys agree on every input |
| SatAttackModel.PassesOnPrefix | src/sat_attack.cpp:469-479 | a key consistent with more vectors is consistent with fewer |
| SatAttackModel.MoreVectorsFewerKeys | src/sat_attack.cpp:38-43 | adding test vectors never adds a consistent key |
| SatAttackModel.SubsetSmaller | src/sat_attack.cpp:38-43 | a subset is no larger |
| SatAttackModel.DistinguishingVectorShrinks | src/sat_attack.cpp:55-104 | storing a distinguishing input with the oracle's answer removes at least one consistent key, which bounds the attack's rounds |
| SatAttackModel.Count | src/sat_attack.cpp:132-155 | a for loop with bound n runs max(n, 0) times |
| SatAttackModel.TakeSnoc | src/sat_attack.cpp:137-140 | a failing vector is stored only while fewer than maxConstraints have been counted |
| SatAttackModel.FailingDrawn | src/sat_attack.cpp:131-143 | at most n of n drawn vectors fail |
| SatAttackModel.ErrorRate | src/sat_attack.cpp:128-148 | the rate measureErrorAndConstrain reports lies in [0, 1] and is 0 exactly when no drawn vector fails |
| SatAttackModel.FailingDrawnNext | src/sat_attack.cpp:136-137 | one more drawn vector is listed exactly when the best key is wrong on it |
| SatAttackModel.FailingDrawnAreWrong | src/sat_attack.cpp:136-137 | every listed vector is one of the drawn ones and the key is wrong on it |
| SatAttackModel.FailingDrawnEmpty | src/sat_attack.cpp:136-137 | the list is empty exactly when the key is right on every drawn vector |
| SatAttackModel.RatioBound | src/sat_attack.cpp:145 | an error count over a positive total is a rate between 0 and 1 |
| SatAttackModel.TrailingBelow | src/sat_attack.cpp:114-123 | runAppSat's settleCount never exceeds the number of measurements |
| SatAttackModel.TrailingBelowMeaning | src/sat_attack.cpp:114-123 | the last settleCount measurements are below the threshold and the one before them is not |
| SatAttackModel.SetKeyBits | src/sat_attack.cpp:181-183 | the inner loop turns the key into candidate i |
| SatAttackModel.MeasuredSnoc | src/sat_attack.cpp:114-123 | a measurement below the threshold increments settleCount and any other resets it |
| SatAttackModel.NoneBetweenStep | src/sat_attack.cpp:180-195 | a failing candidate extends the gap after the last hit; a passing one starts a new gap |
| SatAttackModel.LastIsLargest | src/sat_attack.cpp:180-195 | when some candidate passes, the last hit of the scan is the largest passing candidate |
| SatAttackModel.Int32 | src/sat_attack.cpp:180 | the value of a 32-bit int: in range and congruent to the number modulo 2^32 |
| SatAttackModel.Pow2Add | src/sat_attack.cpp:180 | 2^(a+b) = 2^a · 2^b |
| SatAttackModel.Pow2Monotone | src/sat_attack.cpp:180 | 2^a ≤ 2^b when a ≤ b |
| SatAttackModel.Pow2At30 | src/sat_attack.cpp:180 | 2^30 = 0x40000000 |
| SatAttackModel.CandidateCountBelow31 | src/sat_attack.cpp:176-180 | below 31 key bits the bound 1 << n as written is 2^n |
| SatAttackModel.CandidateCountAt31 | src/sat_attack.cpp:176-180 | at 31 key bits, which the width check lets through, 1 << n as written is negative and the loop tries no key |
| SatAttackModel.AndLockOutputs | src/sat_attack.cpp:436-457 | a one-gate design whose output is the data input AND the key bit |
| SatAttackModel.AppSatStaleKeyExample | src/sat_attack.cpp:95-104 | on that design runAppSat may keep as best key a key1 that the stored answer rules out, and then stop with no distinguishing input left |
| SatAttackModel.SatAttack.Outputs | src/sat_attack.cpp:436-441 | callDesign gives one output per design output |
| SatAttackModel.SatAttack.Oracle | src/sat_attack.cpp:434 | callOracle gives one output per design output |
| SatAttackModel.SatAttack.constructor | src/sat_attack.cpp:9-26 | the attack keeps the design, its data-input count is the combinational inputs minus the key bits, the expected key is cut to the key port's width, and the store is empty |
| SatAttackModel.SatAttack.ToAigInputs | src/sat_attack.cpp:443-457 | the value of every combinational input is the placement of the inputs and key |
| SatAttackModel.SatAttack.CallDesign | src/sat_attack.cpp:436-441 | the outputs of the design simulated on the placed inputs |
| SatAttackModel.SatAttack.GenInputVector | src/sat_attack.cpp:28-36 | the next vector of the random source, of the data-input width |
| SatAttackModel.SatAttack.AddTestVector | src/sat_attack.cpp:38-43 | the input and the oracle's answer are appended to the store; nothing else changes |
| SatAttackModel.SatAttack.KeyPassesTests | src/sat_attack.cpp:469-479 | true exactly when the key reproduces every stored answer |
| SatAttackModel.SatAttack.AigToSat | src/sat_attack.cpp:352-378 | CONST_FALSE, the placed input and key formulas, then one AND formula per node: the simulation of the graph over formulas |
| SatAttackModel.SatAttack.ExtractOutputs | src/sat_attack.cpp:380-389 | each output's formula, negated for an inverted output literal |
| SatAttackModel.SatAttack.KeyCorrect | src/sat_attack.cpp:391-401 | one constraint per stored vector |
| SatAttackModel.SatAttack.KeyCorrectMeaning | src/sat_attack.cpp:391-401 | an assignment satisfies forceKeyCorrect's constraints exactly when its key passes every stored vector |
| SatAttackModel.SatAttack.ForceKeyCorrect | src/sat_attack.cpp:391-401 | those constraints are added to the solver session |
| SatAttackModel.SatAttack.FindNewValidKey | src/sat_attack.cpp:211-244 | a key of the key port's width that passes every stored vector, or none exactly when no key does |
| SatAttackModel.SatAttack.FindDIFromBestKey | src/sat_attack.cpp:246-294 | a consistent key and an input on which it disagrees with the best key, or none when every consistent key agrees with the best key on every input |
| SatAttackModel.SatAttack.FindDI | src/sat_attack.cpp:296-350 | two consistent keys and an input on which they disagree, or none when all consistent keys agree on every input |
| SatAttackModel.SatAttack.BuildDIQuery | src/sat_attack.cpp:298-327 | findDI's session: two key blocks and one input block of fresh variables, with both keys forced correct and their outputs differing |
| SatAttackModel.SatAttack.CheckSatTranslation | src/sat_attack.cpp:403-432 | with constant inputs and key, the solver's values of aigToSat's literals always equal the simulated state: the check never fails |
| SatAttackModel.SatAttack.GenTestVector | src/sat_attack.cpp:45 | the next random vector and the oracle's answer are appended to the store |
| SatAttackModel.SatAttack.RunPrologue | src/sat_attack.cpp:150-172 | the store is replaced by the initial random vectors, and a first consistent key is always found because the expected key passes |
| SatAttackModel.SatAttack.MeasureOne | src/sat_attack.cpp:133-143 | one round draws a vector, lists it when the best key is wrong on it, and stores it while the count is within maxConstraints |
| SatAttackModel.SatAttack.MeasureErrorAndConstrain | src/sat_attack.cpp:128-148 | the first maxConstraints failing drawn vectors are stored with the oracle's answers, and the returned rate is the failing count over the number drawn (0 when none is drawn) |
| SatAttackModel.SatAttack.CountErrors | src/sat_attack.cpp:131-143 | the loop counts the failing drawn vectors and stores the first maxConstraints of them |
| SatAttackModel.SatAttack.StoredAnswersKept | src/sat_attack.cpp:38-43 | keeping the stored inputs as a prefix keeps the stored answers too |
| SatAttackModel.SatAttack.RunSat | src/sat_attack.cpp:47-81 | the attack always ends with a key that passes the stored vectors and behaves as the oracle on every input, and the initial random vectors remain stored |
| SatAttackModel.SatAttack.RunAppSat | src/sat_attack.cpp:83-126 | an exact stop means every consistent key behaves as the oracle; measurement i is the error rate of keys[i] over the i-th batch of draws after the prologue; an approximate stop means the last settleThreshold rates were below the threshold and the last measured key is the best key |
| SatAttackModel.SatAttack.AppSatLoop | src/sat_attack.cpp:90-125 | the main loop stops exactly when no distinguishing input is left, or approximately after settleThreshold rates in a row below the threshold; each recorded rate is the error rate of the best key of that moment over its batch of draws |
| SatAttackModel.SatAttack.MeasuredRatesSnoc | src/sat_attack.cpp:109-110 | a measurement taken right after the earlier batches extends the record of rates and keys by one |
| SatAttackModel.SatAttack.AppSatQuery | src/sat_attack.cpp:93-104 | a found distinguishing input makes its first key, which passed the stored vectors, the best key and is stored with the oracle's answer, strictly shrinking the consistent keys; without one nothing changes and every consistent key unlocks the design |
| SatAttackModel.SatAttack.AppSatMeasure | src/sat_attack.cpp:109-110 | the rate is the best key's error rate over the next nbRandomVectors draws, at most as many failing vectors as were stored are appended with the oracle's answers, and no consistent key is added |
| SatAttackModel.SatAttack.AppSatRecord | src/sat_attack.cpp:111-121 | one measurement appends its rate and the current best key to the measured history, keeps the rate invariant (rate i is keys[i]'s error rate over the i-th batch of draws), updates the count of trailing rates below the threshold as settleCount does (one more when below, reset to zero otherwise), and never enlarges the set of consistent keys |
| SatAttackModel.SatAttack.RunAppSatUnlocking | src/sat_attack.cpp:83-126 | with the reported key re-checked after an exact stop, an exact stop always reports a key that unlocks the design |
| SatAttackModel.SatAttack.RunBruteForce | src/sat_attack.cpp:174-197 | refused exactly from 32 key bits on; otherwise the best key is the largest-numbered key that passes every stored vector |
| SatAttackModel.SatAttack.AgreeingKeysUnlock | src/sat_attack.cpp:57-100 | when all consistent keys agree on every input, each of them behaves as the oracle, since the expected key is consistent |
| SatAttackModel.SatAttack.ExpectedKeyPasses | src/sat_attack.cpp:159-162 | the expected key passes every stored vector |
| SatAttackModel.Create | src/sat_attack.cpp:16-25 | a given key shorter than the key port is an error; otherwise the attack starts with an empty store and the key cut to the port's width |

## Left out

- The Yosys netlist plumbing is not modelled. This covers wire and cell discovery, the `init_aig` worklist after its first steps, RTLIL simulation (`simulate_basic`, `simulate_cell`, `set_state`) and `CellTypes::eval`. It depends on a library outside the repository. Cells, wires and dependency pairs are plain values instead.
- The layout of combinational inputs is not modelled. The attack assumes the combinational inputs list the data bits and the key-port bits as `Slot`s whose key offsets lie in the key. It also assumes the AIG has one input per combinational input (`DesignShape`).
- ezMiniSAT's clause generation, its timeouts and DIMACS export are not modelled. The solver is a parameter that must answer correctly (`SolverSound`), so the branches for a solver timeout are not modelled. The uninitialised `timeLimit_` only matters to those timeouts.
- Randomness is a parameter. This covers the input vectors of `genInputVector` (a function from a draw counter to a vector) and the draws of the local moves. `create_key` and `gen_test_vectors` are not part of this model.
- Floating point is not modelled.
  - `LogicLockingOptimizer::value` (log2 and exp2) is not modelled.
  - `corruptionStd` (a square root) is not modelled.
  - Percentages and error rates are exact reals or integer ratios. Their printing is not modelled.
- `LogicLockingOptimizer::fromFile` (stream input) is not modelled. Logging and report formatting are not modelled.
- The pass wrappers with no logic of their own are not modelled. This covers `cmd_analyze`, `cmd_show`, `cmd_apply`, `cmd_unlock`, `cmd_direct_locking`, `cmd_sat_attack`, `report_locking` and the wall-clock loop of `ll_explore`.
- `src/pairwise_security_optimizer.hpp` has no implementation to model. It is not part of this model.
- SatAttackModel.SatAttack.RunAppSat requires nbDIQueries != 0. In the source `queryCount % nbDIQueries` is undefined for 0.
- SatAttackModel.SatAttack.RunAppSat counts queries with an unbounded integer. The 32-bit `queryCount` could overflow after 2^31 queries.
- SatAttackModel.SatAttack.RunSat never ends with the key cleared. Under a correct solver the expected key always passes, so the "no valid key" exits of `runSat` and `runPrologue` cannot be reached. The model proves this rather than modelling them.
- CliqueOptimizer.LogicLockingOptimizer.constructor requires every listed node to be in range. The source's `hasEdge` asserts this during the cleanup passes.
- GateInsertion.LockGates and GateInsertion.MixGates: when a cell has no output port, the source's `log_error` aborts the pass in mid-loop. The gates already inserted stay in the abandoned module. On that path the model states only that the module stays well formed and keeps the earlier gates as a prefix, not which gates were inserted before the error.
- TruncateLocked takes the requested count as a `nat`. In the source `parseOptionalPercentage` returns `std::atoi` of the argument (src/cmd_logic_locking.cpp:234), so a negative `-nb-locked` reaches `locked_gates.resize(nb_locked)` (lines 212-214), which then throws. The model cannot express that input.
- SplitKey takes the locked-gate count as a `nat`, for the same reason: a negative count from `std::atoi` is not modelled.
- RoundToLanes uses unbounded integers. `nb_test_vectors + 63` (src/cmd_logic_locking.cpp:313) overflows a 32-bit int near INT_MAX, and that overflow is not modelled.
- ParseHex works on Dafny characters, not on the bytes of a `std::string`. Bytes above 127, and `std::tolower` on a negative `char`, are not modelled.
- ToLower maps only the ASCII letters. It does not model the locale of `std::tolower` or its undefined behaviour on negative `char` values.
- DelayAnalysis: delays are integers, and `delay` needs at least one node (`max_element` of an empty vector is undefined).

## Findings

| source | as written | input that shows it | evidently intended | confidence | as-written member | corrected member |
|---|---|---|---|---|---|---|
| src/mini_aig.hpp:100-103 | `addNot(a)` builds AND(a, a), which is a buffer | a graph with one input set to true: `addNot(getInput(0))` reads true | an inverter, AND(¬a, ¬a) | not executed | MiniAig.AddNotIsNotAnInverter | MiniAig.NotGateComputes |
| src/logic_locking_analyzer.cpp:364 | the inversion test names `$_NMUX` without the trailing underscore, so a `$_NMUX_` cell is translated as a plain mux | a `$_NMUX_` cell with A = B = S = 0 gets a literal that reads 0, while the cell drives 1 | the complement of the mux for `$_NMUX_` | not executed | Analyzer.NmuxAsWrittenIsNotInverted | Analyzer.MuxBuildComputes |
| src/sat_attack.cpp:176-180 | the bound `1 << nbKeyBits` is a 32-bit int, and the guard only rejects 32 bits or more | 31 key bits: the bound is negative and no candidate key is tried | 2^31 candidates | not executed | SatAttackModel.CandidateCountAt31 | SatAttackModel.SatAttack.RunBruteForce |
| src/sat_attack.cpp:101-104 | `runAppSat` keeps key1 of the last distinguishing input as its best key and then stores the oracle's answer to that input, so it can stop exactly with a key the store rules out | output = input AND key, expected key 0: key1 = 1 disagrees with the oracle on input 1, and afterwards every consistent key agrees | on an exact stop, report a key consistent with the stored vectors | not executed | SatAttackModel.AppSatStaleKeyExample | SatAttackModel.SatAttack.RunAppSatUnlocking |
| src/delay_analyzer.cpp:46-69 | the stack search appends each popped node, which gives a reverse pre-order where a driver can come after the cell it drives | pairs (b, a), (c, a), (c, b) with a locked: order [1, 2, 0] places node 1 before its driver 2 | every driver before the cells it feeds, which is the check of lines 73-81 | not executed | DelayAnalysis.DriverAfterCellFailsCheck | DelayAnalysis.TopologicalSort |
| src/delay_analyzer.cpp:54-66 | a node already on the stack is pushed and appended again | pairs (b, a), (c, a), (b, c) with a locked: order [1, 1, 2, 0] has four entries for three nodes | each node once, which is the assert of line 70 | not executed | DelayAnalysis.RepeatedNodeFailsCheck | DelayAnalysis.TopologicalSort |
| src/command_utils.cpp:87-98 | the bit vector has max(largest index, nbNodes) entries, so the largest index is written one past the end | solution {0} with the default nbNodes = 0 | one more entry than the largest index | not executed | CommandUtils.SolHexAsWrittenDefaultSize | CommandUtils.SolHexRoundTrip |
| src/logic_locking_optimizer.cpp:151-158 | `nbEdges` loops while i + 1 < nbNodes, so the last node's list is never counted | the single edge 0-1 gives 0 edges | 1 edge | not executed | CliqueOptimizer.SingleEdgeCounts | CliqueOptimizer.NbEdges |
| src/logic_locking_optimizer.cpp:140-149 | `nbConnectedNodes` has the same bound, so the last node is never counted | the single edge 0-1 gives 1 connected node | 2 connected nodes | not executed | CliqueOptimizer.SingleEdgeCounts | CliqueOptimizer.NbConnectedNodes |
| src/logic_locking_statistics.cpp:13-21 | `reset` zeroes `nbKeys_` but keeps `corruptionPerKey_` | one update followed by reset: one per-key value with no key, so `check()` fails at lines 110-112 | clear the per-key values too | not executed | Statistics.ResetLeavesStaleKey | Statistics.ResetAllPassesCheck |
| src/gate_insertion.cpp:58-59 | the second assertion asks cell 1, not cell 2, about port 2 | an AND cell with output Y mixed with a flip-flop with output Q | each port checked on its own cell | not executed | GateInsertion.MuxAssertRejectsValidPair | GateInsertion.InsertMuxLockingGate |
