# Coverage feedback of a coverage-guided fuzzer, in Dafny

This project models the coverage-feedback state of the fuzzing engine, as
declared in `fuzztest/internal/coverage.h`. It has two parts.

- **`ExecutionCoverage`** records one run. Its state is:
  - the 8-bit edge counters;
  - the per-run hit count of each comparison site;
  - the best `CmpScore` triple `(counter, hamming, absolute)` per comparison site;
  - the stack watermark of the run, and a per-call-site stack map;
  - the "new coverage" latch;
  - the tracing flag.

  Its operations are `ResetState`, `UpdateCmpMap`, `UpdateMaxStack`,
  `NewCoverageFound`, `IsTracing`, `SetIsTracing` and `MaxStackUsed`. Each is
  a pure function from one recorder state to the next (module `Execution`,
  file `execution_coverage.dfy`).
- **`CorpusCoverage`** aggregates runs. It holds one counter per edge and
  starts blank. `Update` merges a run's edge counters into it and reports
  whether any counter went up (a modelling choice, see below).
  `GetNumberOfCoveredEdges` counts the non-zero counters (module `Corpus`, file `corpus_coverage.dfy`).

The comparison-score order is in module `CmpScores` (`cmp_score.dfy`). The
byte maps and the count of non-zero slots are in module `Bytes`
(`bytes.dfy`). Module `Runs` (`recorder_runs.dfy`) strings recorder calls
together: reset, tracing on, hook calls, tracing off. It proves what such
sequences keep.

The map sizes are not fixed constants. The model is parametric in them: a
recorder carries its maps, and `Execution.Valid` requires the two comparison
maps to have equal, positive sizes and the stack map to be non-empty. The
source uses 256 Ki slots for both hashed maps.

`NewCoverageFound`, `IsTracing` and `MaxStackUsed` are the plain field reads
at coverage.h:86-88, 94 and 113. They have no contract of their own; the
contracts of the other operations are stated through them.

The header declares `UpdateCmpMap`, `UpdateMaxStack`, `MaxAllowedStackUsage`,
the `CorpusCoverage` constructor and `CorpusCoverage::Update` but does not
define them; their definitions are in a file that is not part of this model.
Those operations are modelled from their doc comments (coverage.h:82-84,
100-112, 119-127, 163-165, 171-173). The choices made where those comments
leave a gap are:

- A site index is folded into range with `index % size`. A call-site
  address is folded the same way.
- The per-run hit count of a comparison site goes up by one and sticks at
  255.
- Write-back of a higher comparison score: coverage.h:124-127 only say when
  the score increases. The model replaces the whole stored triple when the
  counter is larger, and on a tied counter raises only the field (hamming or
  absolute) that improved (`CmpScores.Improve`). So when the counter rises,
  the stored `hamming` and `absolute` can drop;
  `CmpScores.ScoresCanDropWhenCounterRises` gives an instance. What holds
  in every case is that the stored triple never drops in the `Covers` order.
- The stack depth and the caller's thread are inputs: `StackCaller` is
  `OtherThread` or `TestThread(depth)`.
- The stack limit is an input, and an abort is the `Abort` outcome.
- The comparison and stack hooks act only while tracing is on. That gate
  sits in the hook dispatch `Runs.Step`, not inside `UpdateCmpMap` or
  `UpdateMaxStack`, because the header puts no such gate in those two.
- `Corpus.Update` reports only edge-counter increases; the recorder's latch
  is not consulted. coverage.h:171-173 say only "Returns true if new
  coverage was triggered", while line 149 calls the latch "new coverage of
  any kind", so the header alone does not settle whether comparison-score or
  stack improvements also count for the corpus.

## Notes on the header

- `ResetState` (coverage.h:61-68) clears the per-run hit counts
  `new_cmp_counter_map_` (line 62) but not the best scores `max_cmp_map_`.
  The best scores therefore carry over between runs. `Runs.RunKeepsMaxima`
  proves they never move down in the score order, resets included.
  `Runs.TwoComparisonsOnScoredSite` shows the consequence: a run that repeats
  an earlier run's comparisons does not set the latch.
- The comments at coverage.h:119-132 sit above `new_cmp_counter_map_` but
  describe the `CmpScore` map. The one at line 135 ("temporary map storing
  the hit counts") sits above `max_cmp_map_` but describes the per-run
  counts. The model follows what each map does in `ResetState`.

## Model

| member | source | states |
|---|---|---|
| `Bytes.CountNonZeroIsCardinality` | fuzztest/internal/coverage.h:175-180 | the counted number of non-zero slots equals the size of the set of non-zero slots |
| `Bytes.CountNonZeroMonotone` | fuzztest/internal/coverage.h:175-180 | a map that is non-zero wherever another map is non-zero has at least as many covered edges |
| `Bytes.CountNonZeroOfZeros` | fuzztest/internal/coverage.h:163-165 | a blank map has no covered edge |
| `CmpScores.IsHigher` | fuzztest/internal/coverage.h:124-127 | a score is higher than the stored one when its counter is larger, or the counters tie and its hamming or its absolute score is larger; no score is higher than itself |
| `CmpScores.HigherIffNotCovered` | fuzztest/internal/coverage.h:124-127 | an offered score is higher than the stored one exactly when the stored one does not cover it: both directions of the order |
| `CmpScores.CoversTransitive` | fuzztest/internal/coverage.h:124-127 | the "at least as good" relation between scores is transitive |
| `CmpScores.Improve` | fuzztest/internal/coverage.h:119-127 | the stored score changes exactly when the offer is higher; the new score covers both the old one and the offer; a larger counter takes the whole offer; on a tied counter only a field that improved is overwritten |
| `CmpScores.ScoresCanDropWhenCounterRises` | fuzztest/internal/coverage.h:124-127 | a larger counter replaces hamming and absolute even when they are smaller |
| `Execution.New` | fuzztest/internal/coverage.h:47-48 | a new recorder views the given edge counters; every other map is blank, the latch is clear, tracing is off and the watermark is 0 |
| `Execution.ResetState` | fuzztest/internal/coverage.h:57-68 | edge counters and per-run hit counts are zero at unchanged sizes, the latch is clear, the watermark is 0; best scores, the stack map, the recent-compares tables and the tracing flag are untouched |
| `Execution.ResetStateIdempotent` | fuzztest/internal/coverage.h:61-68 | a second reset right after the first changes nothing |
| `Execution.SetIsTracing` | fuzztest/internal/coverage.h:92-98 | afterwards `IsTracing` returns the given value, and nothing else changes |
| `Execution.SetIsTracingRoundTrip` | fuzztest/internal/coverage.h:94-98 | setting the flag back to what it was restores the recorder; of two settings the last one wins |
| `Execution.UpdateCmpMap` | fuzztest/internal/coverage.h:82-84 | the site's hit count rises by exactly one unless it is at 255; the stored score becomes `Improve` of the old score and the offer; the latch is set exactly when the offer is higher than the stored score, and is never cleared; the stored score is replaced only by a higher one and never moves down; other sites and all other state are unchanged |
| `Execution.UpdateMaxStack` | fuzztest/internal/coverage.h:100-113 | another thread's call leaves everything unchanged; the call aborts exactly when the run's watermark would rise above the limit; otherwise both watermarks become the larger of old value and depth, the latch notes a higher per-site value, and a watermark within the limit stays within it |
| `Runs.Step` | fuzztest/internal/coverage.h:92-98 | a comparison or stack hook call while tracing is off changes nothing; only a stack call can abort, and only above the limit |
| `Runs.Run` | fuzztest/internal/coverage.h:100-107 | a sequence of calls keeps the recorder well formed and its map sizes fixed; any abort reports a usage above the limit |
| `Runs.RunKeepsMaxima` | fuzztest/internal/coverage.h:133-147 | across any calls, resets included, each best score covers the earlier one and each per-site stack watermark is at least the earlier one |
| `Runs.RunWithoutResetKeepsLatchAndWatermark` | fuzztest/internal/coverage.h:139-150 | between resets a set latch stays set and `MaxStackUsed` never decreases |
| `Runs.RunKeepsWatermarkWithinLimit` | fuzztest/internal/coverage.h:100-107 | while the process keeps running, a watermark that started within the limit stays within it |
| `Runs.TwoComparisonsOnFreshSite` | fuzztest/internal/coverage.h:119-136 | after reset, two identical comparisons at an unscored site set the latch, count 2 hits and store (2, 3, 200) |
| `Runs.TwoComparisonsOnScoredSite` | fuzztest/internal/coverage.h:57-66 | because best scores survive reset, repeating an earlier run's comparisons leaves the latch clear |
| `Corpus.New` | fuzztest/internal/coverage.h:163-165 | a new aggregate has `map_size` counters, all zero, and no covered edge |
| `Corpus.Merge` | fuzztest/internal/coverage.h:171-173 | the merged map has the corpus's size; together with `Corpus.MergeIsLeastUpperBound` it is the slot-by-slot maximum |
| `Corpus.Update` | fuzztest/internal/coverage.h:171-173 | each counter becomes the larger of the corpus value and the run's counter; the result is true exactly when some counter strictly went up |
| `Corpus.GetNumberOfCoveredEdges` | fuzztest/internal/coverage.h:175-180 | the count equals the number of non-zero slots and is at most the map size |
| `Corpus.MergeIsLeastUpperBound` | fuzztest/internal/coverage.h:171-173 | the merge is at least both inputs slot by slot, and at most any other such bound |
| `Corpus.MergeUnchangedIff` | fuzztest/internal/coverage.h:171-173 | a merge leaves the corpus unchanged exactly when the run shows nothing new |
| `Corpus.MergeTwiceFindsNothing` | fuzztest/internal/coverage.h:171-173 | merging the same run again finds nothing new and changes nothing |
| `Corpus.MergeKeepsCoveredEdges` | fuzztest/internal/coverage.h:175-180 | merging never uncovers an edge, so the covered-edge count never decreases |
| `Corpus.MergeExample` | fuzztest/internal/coverage.h:171-180 | merging counters [0, 3, 0, 5] into a blank corpus of 4 finds new coverage and covers 2 edges; merging them again finds nothing |

## Left out

- The SanitizerCoverage hooks and the `GetExecutionCoverage()` singleton (coverage.h:15-25, 157) are not modelled. They are compiler-inserted glue and global wiring. `Runs.Step` stands in for a hook call.
- `GetCurrentStackFrame` and the thread-local `test_thread_stack_top` (coverage.h:67, 70-76, 138) are not modelled. They use a compiler builtin, pointer arithmetic and thread-local storage. The caller of `UpdateMaxStack` passes its thread and stack depth instead. `ResetState`'s recording of the calling thread's stack top becomes the caller's claim to be `TestThread`.
- `std::atomic` ordering of the latch and races on the counters (coverage.h:43-44, 150) are not modelled. The latch is a plain boolean and all calls are sequential.
- `MaxAllowedStackUsage` (coverage.h:100-107) is not modelled. It reads the `FUZZTEST_STACK_LIMIT` environment variable, and its default is not in the header. The limit is a parameter.
- `TablesOfRecentCompares` is not part of this model. It is a type parameter that the recorder carries and never changes. `GetTablesOfRecentCompares` and `GetCounterMap` are plain field reads.
- The edge counters are incremented by instrumentation, which is outside this model. `Corpus.Update` takes whatever counters the run holds.
- Execution.UpdateCmpMap: the per-run hit count is assumed to saturate at 255. The header states only that overflows are ignored, and the definition is not shown.
- Execution.UpdateMaxStack: per-site watermarks are unbounded naturals. In the source they are `uint32_t`, so a depth of 2^32 or more would be truncated. Any such depth is far above a realistic limit and aborts anyway. The slot is `pc % size`, a stand-in for the source's own mapping from address to slot.
- Corpus.Update: a run whose counter map differs in size from the corpus is excluded by a precondition. Such a mismatch is a programming error in the source; it is not modelled as an abort.
- Heap allocation and the destructor of `CorpusCoverage` (coverage.h:166, 184) are not modelled. The corpus map is a value.
