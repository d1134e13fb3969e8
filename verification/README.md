# A verified model of fdb-go's algorithms and protocols

fdb-go is a Go port of the FoundationDB Record Layer. It is kept honest by conformance
steps that run the Java original side by side. This project models the parts of both that
hold real algorithms or protocols, and proves what they promise for every input, every
oracle answer and every interleaving.

| module | what it models |
|---|---|
| `Peel`, `PeelTheorems`, `PeelTies` | The iterated outlier peel of GuardiANN: a shrinking mass of vectors, three removal rules, stride sampling, re-homing. KMeans, the evaluator and the distance are arbitrary. |
| `MappedRange`, `RangeContents`, `BatchScan` | Key selectors with 32-bit offsets, the contents of a scan in byte order, skip by offset, and the batch loop against an arbitrary server. |
| `PipelinedLoad`, `PipelinedRuns` | The gated pipelined record load as a transition system over native reads, the gate, charges, pulls and the source error. |
| `CursorStep`, `PipelinedCursor`, `CursorRuns` | The Go cursor over a growing ring buffer of issued reads, with closing and a cancelled context; one call as a function of the state, and whole runs of calls. |
| `Predicates`, `NormalForm`, `NormalFormSize`, `Absorption`, `Normalizer`, `MinimalClauses`, `ComparisonMeaning` | Predicates in Kleene logic, distribution into normal form, its size guard, absorption; comparisons of operands that may be NULL. |
| `Weights`, `Simplifier`, `Simplification`, `Fixpoint`, `SimplifiedShape` | The simplification rules, their termination measure, the fixpoint and its shape. |
| `UnionLegs`, `UnionRule`, `UnionSharing`, `UnionExamples`, `SharedSimplification` | Splitting a conjunction into unions by fixing some factors and expanding the others, leaving implied factors out of a leg, sharing legs between choices, and the memo of simplified subtrees. |
| `LeafClauses`, `ClausalShapes`, `PinnedTrees` | Simplification of clauses of leaves; all example trees of the predicate contract. |
| `BulkInsert`, `BulkOverflow` | Concurrent batch workers with a shared counter and a shared first error, on 32-bit integers. |
| `PageWalk`, `Drain`, `DatabaseCache`, `ScriptText`, `Names` | The page walk, the drain of deferred work, the database cache, the result printer, argument names. |
| `Sequences`, `Int32`, `Wrappers` | Index sequences and powers of two, 32-bit wrap-around, optional values. |

What the proofs brought out about the code:

- The Java and the Go geometric floor break ties in opposite orders. They keep the same
  members exactly when no tie straddles the cut (`TieRulesAgree`), and make the same run
  when none does in any round (`UntiedRunsAgree`). On six vectors with the Euclidean
  distance the two rules report different rows (`TieRulesDiffer`).
- The sample index of the peel is a 32-bit integer. It runs out of bounds exactly when it
  wraps before the sample is full (`StrideSample`), which needs a mass above 2^30
  (`SampleFits`).
- Java's forward skip of the largest int wraps the selector offset to the smallest one and
  returns rows from before the range (`SkipExact`, `WrappedSkipScans`,
  `SkipReturnsEarlierRows`). The Go port saturates instead (`SaturatedSkipExact`).
- The size guard of the normaliser saturates: a wrapping 64-bit count reads zero for a
  conjunction of 32 four-way disjunctions (`WrappingCountReadsZero`). The guard is exact
  for every limit but the largest 64-bit integer, which admits everything (`GuardExact`,
  `LargestLimitAdmits`), although the saturated size is described as above every limit.
- The union rule says that a term's leg is the same for every choice of fixed factors. That
  holds for disjunctions of leaves (`SameLegForEveryChoice`) and fails for two factors with
  a nested conjunction (`LegDependsOnChoice`).
- A held gate lets the consumer reach the source error if and only if the pipeline is
  larger than the scan limit (`ErrorReachableIffRoom`). A gate released before the error
  leaves the number of rows open: every number up to the limit occurs (`RowsExact`).
- The bulk insert silently inserts nothing, and reports no error, once
  `total + workers - 1` exceeds the largest int (`Spawn`, `NothingInserted`). Once a batch
  start plus the batch size does, every report without an error counts at least a whole
  batch too much (`ErrorFreeReport`). Ten records for two workers, all in one batch of the
  largest int, give such a report (`WrongReport`); other inputs never return
  (`NeverReturns`).
- `createDatabase` sets its cache key before the database is open. If opening fails while
  another database is cached, the next call returns that other database
  (`StaleAfterFailedOpen`); `CreateDatabase` states exactly when a call returns the
  requested content.

Distances and the evaluator's inputs are over `real`, and integers wrap only where written.

## Model

| member | source | states |
|---|---|---|
| Peel.TailThreshold | conformance/guardiann_probe_conformance.java:1058-1068 | The threshold is the least distance of an undersized-child member of the mass; it stays infinite exactly when that child holds none. |
| Peel.Survivors | conformance/guardiann_probe_conformance.java:1069-1082 | The members left are exactly those outside the undersized child and, in tail mode, strictly nearer the large centroid than all of that child's members; nothing is removed exactly when the child holds no mass. |
| Peel.FloorCut | conformance/guardiann_probe_conformance.java:1089-1106 | Drops exactly the shortfall farthest members, every one of them farther (or as far and first by the tie rule) than every survivor, and keeps the survivors' order. |
| Peel.StrideSample | conformance/guardiann_probe_conformance.java:1113-1117 | With the 32-bit index of the loop: out of bounds if and only if the index wraps before the sample is full; otherwise the sample is members 0, stride, 2*stride, ... with the rounded-up stride, all the way to the end of the mass. |
| Peel.Rehome | conformance/guardiann_probe_conformance.java:1124-1131 | Every vector goes to the strictly nearer second centroid, otherwise to the first, and the sizes count the assignment. |
| Peel.PeelOnce | conformance/guardiann_probe_conformance.java:1058-1107 | One round either finds no mass in the undersized child or leaves exactly the members the three rules leave. |
| Peel.PeelWithSeed | conformance/guardiann_probe_conformance.java:1040-1156 | The rows are a chain of refits, each following from the stage before it, and the outcome is the one whose condition the run meets. |
| PeelTheorems.RunUnique | conformance/guardiann_probe_conformance.java:1040-1156 | The contract of the peel admits one run only: refits, rows and outcome are determined by the inputs and the oracles. |
| PeelTheorems.SmallerChildPeeled | conformance/guardiann_probe_conformance.java:1058-1107 | A round removes members of the child with fewer vectors (the first one on equal sizes), in tail mode all at least as far from the other centroid as the nearest of them, and with the floor the farthest ones up to the quota of the round, each rule written out on distances. |
| PeelTheorems.RefitsPeelSmallerChild | conformance/guardiann_probe_conformance.java:1049-1112 | Every refit of a run has the mass that rule leaves of the stage before it. |
| PeelTheorems.RefitSpelledOut | conformance/guardiann_probe_conformance.java:1113-1151 | Every refit of a run fits exactly the sampled vectors with its own seed, sends every vector to the strictly nearer second centroid, otherwise to the first, counts the children, is evaluated as that partition, and is what the next round starts from. |
| PeelTheorems.NoMassSpelledOut | conformance/guardiann_probe_conformance.java:1058-1082 | A round ends for want of mass if and only if no member is in the child with fewer vectors. |
| PeelTheorems.RowsReport | conformance/guardiann_probe_conformance.java:1137-1143 | A reported row holds the size of the mass, the size of the sample, the child sizes and the decision of its refit. |
| PeelTheorems.StartsFromPlainFit | conformance/guardiann_probe_conformance.java:1030-1054 | The run starts from the whole population and the plain fit of the seed, with the decision of that fit. |
| PeelTheorems.MassAt | conformance/guardiann_probe_conformance.java:1049-1112 | In every mode and round the mass is ascending, valid and part of the one before, and has lost at least one member per refit. |
| PeelTheorems.RefitBound | conformance/guardiann_probe_conformance.java:1057-1112 | A run over n vectors makes at most n - 2 refits. |
| PeelTheorems.GeometricRemoval | conformance/guardiann_probe_conformance.java:1083-1107 | With the floor, after refit r at least 2^(r+1) - 1 members have left the mass and 2^(r+1) <= n - 1. |
| PeelTheorems.LogarithmicRefits | conformance/guardiann_probe_conformance.java:1055-1107 | k >= 1 refits imply 2^k <= n - 1; for int-sized n there are at most 30, the shift's cap of 62 is never active and the floor fits an int. |
| PeelTheorems.TailCutSeparates | conformance/guardiann_probe_conformance.java:1060-1078 | After a tail cut every remaining member is strictly nearer the large centroid than every removed one. |
| PeelTheorems.FloorCutUnique | conformance/guardiann_probe_conformance.java:1089-1106 | The floor cut is fully determined by distances, ties and shortfall. |
| PeelTheorems.ChildSizesSum | conformance/guardiann_probe_conformance.java:1124-1131 | In every refit the two child sizes add up to the population. |
| PeelTheorems.SampleSize | conformance/guardiann_probe_conformance.java:1113-1117 | For a mass and a sample size of at least two, the sample has between two and sample-size members and is the whole mass when that fits. |
| PeelTheorems.SampleFits | conformance/guardiann_probe_conformance.java:1113-1117 | A mass of up to 2^30 members is sampled without a wrap, whatever the sample size. |
| PeelTheorems.SampleCanOverflow | conformance/guardiann_probe_conformance.java:1113-1117 | The largest mass with a sample size of 2^30 + 1 does wrap. |
| PeelTheorems.OutcomeFromRows | conformance/guardiann_probe_conformance.java:1054-1154 | The initially usable, selected and round-bound outcomes hold exactly when the initial decision and the reported rows have the corresponding shape; only the last row can be usable. |
| PeelTheorems.TieRulesAgree | pkg/recordlayer/vectorindex/guardiann_unsplittable.go:196-210 | The Java and Go floor cuts leave the same mass if and only if some distance separates exactly the dropped members. |
| PeelTies.UntiedRunsAgree | pkg/recordlayer/vectorindex/guardiann_unsplittable.go:113-210 | A run in which no tie straddles a floor cut is a run under the other tie rule too, with the same outcome. |
| PeelTies.DistanceIsEuclidean | conformance/guardiann_probe_conformance.java:1003-1004 | The distance of that example is the Euclidean one. |
| PeelTies.TieRulesDiffer | conformance/guardiann_probe_conformance.java:1083-1107 | Six one-dimensional vectors under the Euclidean distance, with fits at cluster means: both tie rules run two refits, on different masses of three, and report different rows. |
| MappedRange.CountBeforeIsPrefix | conformance/mapped_range_conformance.java:123-132 | In a sorted key set the keys before a selector are an initial segment, so a selector resolves to one position. |
| MappedRange.ResolveAtKey | conformance/mapped_range_conformance.java:215-220 | A continuation selector at a present key resolves right at it or right after it. |
| RangeContents.OrderOfBytes | conformance/mapped_range_conformance.java:123-132 | The key order is the unsigned order of bytes: a proper prefix comes first, otherwise the first differing byte decides. |
| RangeContents.ScanHolds | conformance/mapped_range_conformance.java:123-132 | A scan holds a key if and only if it is stored, not below the begin and below the end, in byte order; an empty anchor opens the begin and closes the end. |
| RangeContents.ScanOrdered | conformance/mapped_range_conformance.java:123-132 | A forward scan is strictly ascending in byte order, and a reverse scan is the same rows backwards. |
| MappedRange.SkipDrops | conformance/mapped_range_conformance.java:123-132 | Offsetting the begin or end selector drops exactly `skip` rows of the scan in its direction, short of the 32-bit wrap. |
| MappedRange.SkipExact | conformance/mapped_range_skip_conformance_test.go:39-54 | Java's skip is exact if and only if it is not the forward skip of the largest int, or the wrapped window is empty. |
| MappedRange.WrappedSkipScans | conformance/mapped_range_skip_conformance_test.go:39-54 | The wrapped skip scans every key before the end of the range, from the very first one on. |
| MappedRange.SkipReturnsEarlierRows | conformance/mapped_range_conformance.java:123-132 | Two keys, a range holding the second, and a skip of the largest int: both come back. |
| MappedRange.SaturatedSkipExact | pkg/recordlayer/index_cursor_limits.go:38-54 | Go's saturated skip is exact if and only if it does not saturate or the range has fewer rows than the largest int. |
| BatchScan.Continue | conformance/mapped_range_conformance.java:215-220 | The window anchored at the last row of a batch is exactly the rest of the window before it, in both directions. |
| BatchScan.ScanBatches | conformance/mapped_range_conformance.java:196-222 | For every legal server schedule the loop ends with a prefix of the limited slice, the whole slice exactly when the last batch did not come back empty with rows left, and always with a server that makes progress; each request is for the missing rows and never 0 under a limit. |
| BatchScan.ScanWithSkip | conformance/mapped_range_conformance.java:184-222 | Skip, limit, direction and batching together equal the plain range in scan order with `skip` rows dropped and at most `limit` taken; with a wrapped skip they equal the slice the wrapped selectors give, up to a stall. |
| PipelinedRuns.StepConsistent | conformance/index_scan_limit_conformance.java:306-353 | Every step keeps bytes scanned equal to index bytes pulled plus record bytes of completed loads, and the counters in order. |
| PipelinedRuns.StepScheduled | conformance/index_scan_limit_conformance.java:504-544 | Every step keeps what its arm promises about readiness, rows, charges and source calls. |
| PipelinedRuns.RunInvariant | conformance/record_load_charge_probe.java:96-140 | Every reachable state, under every interleaving, is consistent and on schedule. |
| PipelinedRuns.NativeBeforeFailure | conformance/record_load_charge_probe.java:126-139 | In every run, the scan has failed, or a waiting load call has returned, only if the native read of some issued load is ready. |
| PipelinedRuns.RunLength | conformance/record_load_charge_probe.java:221-281 | No run has more than five steps per index entry plus three. |
| PipelinedRuns.Progress | conformance/record_load_charge_probe.java:114-139 | The gate cannot deadlock: short of quiescence some step is always enabled. |
| PipelinedRuns.EveryRunEnds | conformance/record_load_charge_probe.java:313-364 | Every maximal run quiesces; its source calls, failure charge and final charge depend on the arm alone, and it returns all rows when ready, none when held and at most the limit when released. |
| PipelinedRuns.RowsExact | conformance/record_load_charge_probe.java:313-364 | The row counts that complete runs have: exactly the limit when ready, exactly none when held, and every number from none to the limit when released before the error. |
| PipelinedRuns.Extend | conformance/record_load_charge_probe.java:183-194 | Every unfinished run can be carried on to quiescence. |
| PipelinedRuns.ErrorReachableIffRoom | conformance/index_scan_limit_conformance.java:659-661 | Unless mappings are ready when offered, the source error is reachable if and only if the pipeline is larger than the scan limit. |
| PipelinedRuns.ReadyHeadReturnsFirst | conformance/index_scan_limit_conformance.java:504-527 | A mapping ready when offered is returned before the source is pulled again. |
| PipelinedRuns.HeldChargesNothing | conformance/record_load_charge_probe.java:240-249 | While the gate holds, no row is returned and no record byte is charged. |
| PipelinedRuns.QuiescenceIssuesNothing | conformance/index_scan_limit_conformance.java:528-544 | After the error no step pulls, issues, offers or returns anything, and the failure charge stays. |
| PipelinedRuns.ChargesConfluent | conformance/record_load_charge_probe.java:332-364 | Complete runs of any two arms agree on the total charge, and on the charge at failure if both hold or neither does. |
| PipelinedCursor.Ring.Index | pkg/recordlayer/cursor_pipelined.go:76-82 | The subtract-first index is the head plus the offset modulo the capacity, without forming a sum past it. |
| PipelinedCursor.Ring.Grow | pkg/recordlayer/cursor_pipelined.go:84-97 | Growing keeps the queued contents in order and doubles the capacity up to the pipeline size, starting from one. |
| PipelinedCursor.Ring.Push | pkg/recordlayer/cursor_pipelined.go:84-100 | Appends to the queue. |
| PipelinedCursor.Ring.Pop | pkg/recordlayer/cursor_pipelined.go:102-111 | Removes and returns the oldest entry. |
| PipelinedCursor.Cursor.KeepCompletedPrefix | pkg/recordlayer/cursor_pipelined.go:169-194 | Under a time limit exactly the prefix of reads found completed stays queued, the first one dropped was found pending by the last question asked, and the stop resumes right after the prefix; a failed completed read is reported; the state is the one `CursorStep.Cut` gives. |
| PipelinedCursor.Cursor.Fill | pkg/recordlayer/cursor_pipelined.go:133-154 | Unless the source ends, every pull but the last finds the head not ready, and the last one finds it ready or fills the pipeline; queued positions stay consecutive, after a time limit only completed ones are left, and the state is the one `CursorStep.Filled` gives. |
| PipelinedCursor.Cursor.OnNext | pkg/recordlayer/cursor_pipelined.go:120-167 | The answer and the whole new state are those of `CursorStep.Next`, whose runs `CursorRuns` describes. For every source, every read and every readiness, and any pipeline size: rows come in source order with their own reads; a stop comes only after a pull that ended the scan for that reason, with that pull's continuation, or after a time limit with the next read found pending, and is then repeated; a failure is a real one and sticks; a call is refused exactly when the cursor is closed or the context is done, and then changes nothing; a call leaves the pipeline full unless it found the head ready after its last pull, and after a time limit it returns a new row only if that was ready. |
| PipelinedCursor.Cursor.Close | pkg/recordlayer/cursor_pipelined.go:196-201 | Drops everything queued and marks the cursor closed. |
| PipelinedCursor.MapPipelined | pkg/recordlayer/cursor_pipelined.go:49-55 | A fresh cursor for every positive pipeline size, and none otherwise. |
| CursorRuns.RowsInOrder | pkg/recordlayer/cursor_pipelined.go:120-167 | In every run from the start, call n is answered by row n with its own read, or by the first answer that is no row, which all later calls repeat. |
| CursorRuns.StopExplained | pkg/recordlayer/cursor_pipelined.go:138-158 | In every run a stop follows a pull that ended the scan for that reason. It comes after all rows before that pull and with its continuation, or after a time limit, with fewer rows, resuming right after them at a read found pending. |
| CursorRuns.HeadReturned | pkg/recordlayer/cursor_pipelined.go:133-167 | A call with a head to return whose read succeeds returns it, unless a pull of this call fails, or hits a time limit after an earlier row with the head pending or a completed read failed. |
| CursorRuns.ReadyHeadReturned | pkg/recordlayer/cursor_pipelined.go:149-154 | A head found ready is returned after one pull. |
| CursorRuns.CompletedPrefixDelivered | pkg/recordlayer/cursor_pipelined.go:140-194 | After a time limit the calls deliver the reads found completed, row by row, and then the stop. |
| CursorRuns.PipelineTransparent | pkg/recordlayer/cursor_pipelined.go:44-48 | As long as the source reports neither an error nor a time limit within the pipeline size, call n is answered as by a cursor without a pipeline, whatever the pipeline size and the readiness. |
| CursorRuns.ErrorOvertakes | pkg/recordlayer/cursor_pipelined.go:133-137 | An error of the source within the pipeline is reported before the rows that are still pending. |
| Predicates.EqualMeaning | pkg/recordlayer/query/plan/cascades/predicates/predicates.go:119-208 | Predicates equal up to order and repetition of AND/OR children mean the same. |
| Predicates.PredEqSymmetric | pkg/recordlayer/query/plan/cascades/predicates/semantic_equals.go:91-111 | Set-wise predicate equality is symmetric. |
| Predicates.PredEqTransitive | pkg/recordlayer/query/plan/cascades/predicates/semantic_equals.go:91-111 | Set-wise predicate equality is transitive, which numbering its classes relies on. |
| Predicates.EqualityIs | pkg/recordlayer/query/plan/cascades/predicates/semantic_equals.go:91-111 | Two predicates are equal if and only if type and atomicity agree and their children are the same up to order and repetition. |
| NormalForm.CrossProduct | pkg/recordlayer/query/plan/cascades/normal_form.go:265-281 | The nested loops compute the cross product with right alternatives outside. |
| NormalForm.NormalizedMeaning | pkg/recordlayer/query/plan/cascades/normal_form.go:218-281 | Distribution, under either mode and any number of negations, keeps the Kleene meaning of every predicate. |
| NormalForm.NormalizedIsNormal | pkg/recordlayer/query/plan/cascades/normal_form.go:130-164 | The rebuilt clauses are recognised as being in normal form. |
| NormalForm.RebuildMeaning | pkg/recordlayer/query/plan/cascades/normalize_entry_points.go:125-131 | Rebuilding clauses into a predicate keeps their meaning. |
| NormalFormSize.SizeIsCount | pkg/recordlayer/query/plan/cascades/normal_form.go:177-212 | The saturating size is the exact number of clauses distribution builds, clamped at the largest 64-bit integer. |
| NormalFormSize.GuardExact | pkg/recordlayer/query/plan/cascades/normalize_entry_points.go:63-119 | For every 64-bit limit, also a negative one, the guard rejects exactly the predicates with more clauses than the limit if and only if the limit is not the largest integer or the count does not exceed it. |
| NormalFormSize.LargestLimitAdmits | pkg/recordlayer/query/plan/cascades/normalize_entry_points.go:63-119 | At the largest limit a predicate of 2^64 clauses is admitted. |
| NormalFormSize.WrappingIsCount | pkg/recordlayer/query/plan/cascades/normalize_entry_points.go:63-97 | Computed with plain 64-bit arithmetic, the size of every predicate would be its clause count modulo 2^64. |
| NormalFormSize.WrappingCountReadsZero | pkg/recordlayer/query/plan/cascades/normalize_entry_points.go:63-97 | 32 four-way disjunctions distribute into 2^64 clauses: the wrapping size is 0, so any limit would admit them, and the saturating one is the largest size. |
| Absorption.DedupPredicates | pkg/recordlayer/query/plan/cascades/rule_normalize_predicates.go:261-276 | The nested loops keep the first of equal predicates, in order. |
| Absorption.DedupMeaning | pkg/recordlayer/query/plan/cascades/rule_normalize_predicates.go:261-276 | Deduplicating a clause keeps its meaning. |
| Absorption.DedupFacts | pkg/recordlayer/query/plan/cascades/rule_normalize_predicates.go:261-276 | It keeps an equal of everything, adds nothing and leaves no two equal. |
| Absorption.AbsorptionMeaning | pkg/recordlayer/query/plan/cascades/rule_normalize_predicates.go:119-216 | Dropping every absorbed clause keeps the Kleene meaning. |
| Absorption.SurvivorsIncomparable | pkg/recordlayer/query/plan/cascades/rule_normalize_predicates.go:139-216 | No surviving clause contains another one. |
| Absorption.LastDuplicateSurvives | pkg/recordlayer/query/plan/cascades/rule_normalize_predicates.go:139-216 | Of clauses equal as sets every earlier one is absorbed. |
| Absorption.ClassSubset | pkg/recordlayer/query/plan/cascades/rule_normalize_predicates.go:218-257 | Comparing sets of class numbers is comparing clauses predicate by predicate. |
| Absorption.AbsorptionSurvivors | pkg/recordlayer/query/plan/cascades/rule_normalize_predicates.go:139-216 | The survivors found through class numbers are exactly the clauses no other absorbs. |
| Normalizer.NormalizeMeaning | pkg/recordlayer/query/plan/cascades/normalize_entry_points.go:99-176 | Both entry points keep the Kleene meaning. |
| Normalizer.NormalizeStable | pkg/recordlayer/query/plan/cascades/normalize_entry_points.go:106-119 | Whatever either entry point returns is in normal form, so a second pass declines. |
| Normalizer.DeclineExact | pkg/recordlayer/query/plan/cascades/normalize_entry_points.go:106-119 | For every 64-bit limit, an entry point declines if and only if the input is in normal form, or the limit is not the largest integer and the input distributes into more clauses than it. |
| MinimalClauses.DedupReadsFirsts | pkg/recordlayer/query/plan/cascades/rule_normalize_predicates.go:261-276 | Deduplication reads a clause at exactly the positions that hold the first of equal predicates. |
| MinimalClauses.AbsorptionIsMinimal | pkg/recordlayer/query/plan/cascades/rule_normalize_predicates.go:114-216 | Of two or more clauses exactly the minimal ones are kept: none repeats a predicate, none contains another, every clause contains one of them, and each is the last clause with its predicates, in the order of the list. |
| MinimalClauses.RebuildReadsBack | pkg/recordlayer/query/plan/cascades/normalize_entry_points.go:120-131 | A rebuilt predicate distributes to the clauses it was built from if and only if there is a clause and none is empty. |
| MinimalClauses.DistributesToSame | pkg/recordlayer/query/plan/cascades/normalize_entry_points.go:158-176 | The entry point without simplification drops no clause and no repetition: its result distributes to the clauses of its input. |
| MinimalClauses.ReturnsMinimal | pkg/recordlayer/query/plan/cascades/normalize_entry_points.go:132-156 | The simplifying entry points return the minimal clauses of the distributed ones, or fewer than two clauses as they are. |
| MinimalClauses.SharedFactor | pkg/recordlayer/query/plan/cascades/normalize_entry_points.go:147-156 | (x or y) and (x or z) becomes x or (y and z) for every limit from four on, and is declined below. |
| ComparisonMeaning.InverseNegates | pkg/recordlayer/query/plan/cascades/predicates/comparisons.go:160-172 | On all operands, NULL included, the comparison a NOT becomes has the negated truth value. |
| ComparisonMeaning.OverSound | pkg/recordlayer/query/plan/cascades/predicates/comparisons.go:160-172 | Every row of operands is a valuation under which simplification keeps the meaning. |
| Weights.DnfNoHeavier | pkg/recordlayer/query/plan/cascades/rule_predicate_normal_form.go:28-36 | Distribution into DNF does not increase the weight of any predicate. |
| Simplifier.ApplyOnceMeaning | pkg/recordlayer/query/plan/cascades/simplifier.go:103-131 | Whichever rule fires first, the replacement means the same. |
| Simplifier.DefaultRulesWeight | pkg/recordlayer/query/plan/cascades/rule_simplify.go:47-334 | Every default rule (constants, absorption, NOT over a comparison, De Morgan) makes the predicate strictly lighter. |
| Simplifier.ApplyOnceLighter | pkg/recordlayer/query/plan/cascades/simplifier.go:103-131 | Every rewrite decreases the measure (weight, then whether the root is still to be distributed). |
| ComparisonMeaning.NotOverComparison | pkg/recordlayer/query/plan/cascades/rule_simplify.go:232-246 | NOT over one of five comparisons simplifies to its complement, by a table; over any other it stays. |
| Simplification.Simplify | pkg/recordlayer/query/plan/cascades/simplifier.go:17-56 | Simplification terminates on every predicate, and without the DNF rule returns its input or something lighter. |
| SharedSimplification.SimplifyShared | pkg/recordlayer/query/plan/cascades/simplifier.go:23-56 | The loops with the memo of subtrees return what simplification without a memo returns, and leave a memo that is still correct and has lost nothing. |
| SharedSimplification.ChildrenShared | pkg/recordlayer/query/plan/cascades/simplifier.go:58-101 | The children, each simplified with the memo the others left, replace the children and keep the atomicity. |
| SharedSimplification.TermsShared | pkg/recordlayer/query/plan/cascades/rule_predicate_to_logical_union.go:402-415 | The terms of one choice of expanded factors do not depend on the memo. |
| SharedSimplification.AllTermsShared | pkg/recordlayer/query/plan/cascades/rule_predicate_to_logical_union.go:370-415 | One memo through all choices gives every choice the terms it would have alone. |
| Simplification.SimplifyMeaning | pkg/recordlayer/query/plan/cascades/simplifier.go:17-97 | Simplification, with or without the DNF rule, keeps the Kleene meaning of every predicate. |
| ComparisonMeaning.SimplifiedValue | pkg/recordlayer/query/plan/cascades/simplifier.go:17-97 | Simplification keeps the value of a predicate on every row of operands. |
| Fixpoint.SimplifyFinal | pkg/recordlayer/query/plan/cascades/simplifier.go:23-56 | It stops only where no rule applies at any node, although rewritten children are explored again only on request. |
| SimplifiedShape.SimplifiedReduced | pkg/recordlayer/query/plan/cascades/rule_simplify.go:47-334 | Everywhere in a simplified predicate AND and OR have neither constants nor redundant terms, and NOT stands only over a constant, a NOT or a comparison without a complement; without the DNF rule exactly such predicates are left alone. |
| SimplifiedShape.AbsorbsNothingIff | pkg/recordlayer/query/plan/cascades/rule_simplify.go:248-334 | Absorption leaves the terms alone if and only if no term's parts are all among another term's. |
| Fixpoint.SimplifyIdempotent | pkg/recordlayer/query/plan/cascades/simplifier.go:17-97 | Simplifying twice is simplifying once. |
| Fixpoint.DnfReached | conformance/predicate_simplification_contract.java:31-34 | A DNF request ends in DNF, or what is left has more clauses than the limit. |
| Fixpoint.AtomicRootKept | conformance/predicate_simplification_contract.java:119-127 | A DNF request returns an atomic root unchanged if and only if no default rule applies in it. |
| PinnedTrees.ChildrenBeforeDistribution | conformance/predicate_simplification_contract.java:103-106 | The model returns the expected tree: absorption drops an atomicity before distribution. |
| PinnedTrees.RedistributeAfterAbsorption | conformance/predicate_simplification_contract.java:108-110 | The model returns the expected tree: an opened disjunction is distributed after all. |
| PinnedTrees.LastDuplicatePosition | conformance/predicate_simplification_contract.java:112-117 | The model returns the expected tree: of eight distributed terms four survive, with repeated predicates at their last position. |
| PinnedTrees.NormalizeRootOnly | conformance/predicate_simplification_contract.java:119-120 | The model returns the expected tree: the atomic root itself. |
| PinnedTrees.SimplifyAtomicRoot | conformance/predicate_simplification_contract.java:126-127 | The model returns the expected tree: p. |
| PinnedTrees.PreserveAtomicity | conformance/predicate_simplification_contract.java:129-133 | The model returns the expected tree: the root stays atomic over its simplified children. |
| PinnedTrees.DeMorganAtomicChild | conformance/predicate_simplification_contract.java:134-135 | The model returns the expected tree: the disjunction of the simplified negations. |
| PinnedTrees.DefaultDeMorgan | conformance/predicate_simplification_contract.java:136-137 | The model returns the expected tree: the conjunction of the simplified negations. |
| PinnedTrees.DefaultNestedConnective | conformance/predicate_simplification_contract.java:138-139 | The model returns the expected tree: nested connectives are not flattened. |
| PinnedTrees.UnitDropped | conformance/predicate_simplification_contract.java:162-169 | A connective of its unit and any operand simplifies to what the operand simplifies to. |
| PinnedTrees.PromotedAtomic | conformance/predicate_simplification_contract.java:141-173 | The model returns all twelve expected trees: three kinds of atomic predicate, promoted by an AND identity, an OR identity, both nested, or under two negations. |
| UnionLegs.UnionMeaning | conformance/predicate_simplification_contract.java:65-83 | For every list of factors and every mask that yields a union, the union of the legs means the conjunction of all factors. |
| UnionLegs.FixedAre | conformance/predicate_simplification_contract.java:65-83 | The fixed factors are atomic copies of exactly those with their bit set, in order. |
| UnionLegs.ExpandedAre | conformance/predicate_simplification_contract.java:65-83 | The expanded factors are exactly the others, unchanged and in order. |
| UnionRule.LegWithoutImplied | pkg/recordlayer/query/plan/cascades/rule_predicate_to_logical_union.go:160-211 | Leaving out the fixed factors a term implies, decided on the factors before they are made atomic, does not change the leg. |
| UnionRule.LeanUnionMeaning | pkg/recordlayer/query/plan/cascades/rule_predicate_to_logical_union.go:193-256 | The union of the rule's own legs, without the implied factors, means the conjunction of all factors. |
| ComparisonMeaning.UnionValue | pkg/recordlayer/query/plan/cascades/rule_predicate_to_logical_union.go:193-256 | On every row of operands both unions have the value of the conjunction of all factors. |
| UnionExamples.FactorLeftOut | pkg/recordlayer/query/plan/cascades/rule_predicate_to_logical_union.go:193-211 | Fixing (p or q) and expanding (p or r): the leg of p carries no fixed factor, the leg of r does. |
| UnionRule.FlattenFlat | pkg/recordlayer/query/plan/cascades/rule_predicate_to_logical_union.go:179-191 | Flattening a term or a factor leaves no plain connective of the same kind to open. |
| UnionExamples.AtomicFactorKept | conformance/predicate_simplification_contract.java:65-83 | An atomic factor with nothing to simplify yields no union. |
| UnionSharing.TermImpliesExpanded | pkg/recordlayer/query/plan/cascades/rule_predicate_to_logical_union.go:137-142 | With disjunctions of leaves, every term of a union implies every factor that was expanded. |
| UnionSharing.SameLegForEveryChoice | pkg/recordlayer/query/plan/cascades/rule_predicate_to_logical_union.go:137-142 | With disjunctions of leaves, equal terms get the same fixed factors under every two choices that yield them. |
| UnionExamples.LegDependsOnChoice | pkg/recordlayer/query/plan/cascades/rule_predicate_to_logical_union.go:137-142 | Two factors with a nested conjunction and a term that two choices yield with different legs. |
| ClausalShapes.SimplifiedEither | pkg/recordlayer/query/plan/cascades/simplifier.go:17-97 | Conjunctions of leaf disjunctions, and disjunctions of leaf conjunctions, simplify to one of the two shapes with the same meaning under every valuation of the leaves. |
| UnionLegs.FixedFactorPopulation | conformance/predicate_simplification_contract.java:60-91 | The loops count exactly the unions and the legs over all masks but the last, and collect every leg. |
| UnionLegs.EveryChoiceEnumerated | conformance/predicate_simplification_contract.java:64-73 | Every choice of fixed factors except all of them has its mask in the loop's range. |
| BulkInsert.Spawn | conformance/benchmark_steps.java:345-361 | The worker ranges are the chunks and partition [0, total) if and only if total + workers - 1 fits an int; past that every range is empty; zero workers divide by zero. |
| BulkInsert.RunInvariant | conformance/benchmark_steps.java:360-383 | In every interleaving with every failure pattern the saved ids are one batch-aligned prefix per worker, and the counter lags by exactly the batches committed and not yet counted. |
| BulkInsert.ReportExact | conformance/benchmark_steps.java:380-397 | Once all workers have returned, the reported count is the number of saved ids, and it is the requested total if and only if no error is reported. |
| BulkInsert.FirstErrorWins | conformance/benchmark_steps.java:377-379 | The reported error is the first one set. |
| BulkOverflow.FirstThrownMayLose | conformance/benchmark_steps.java:377-379 | It need not be the first one thrown: a run in which it is not. |
| BulkInsert.RunLength | conformance/benchmark_steps.java:362-376 | No run takes more than two steps per id, so every run ends. |
| BulkInsert.JoinedIffStuck | conformance/benchmark_steps.java:385-387 | The joins succeed exactly when no worker can step. |
| BulkInsert.RoomForABatch | conformance/benchmark_steps.java:362-364 | The loop arithmetic is exact when total - 1 + batch fits an int. |
| BulkOverflow.ErrorFreeReport | conformance/benchmark_steps.java:362-397 | Every report without an error counts exactly the saved ids if and only if no batch start overflows; otherwise it counts at least a whole batch too much. |
| BulkOverflow.WrongReport | conformance/benchmark_steps.java:345-397 | Ten records, two workers and a batch of the largest int: a complete run without an error whose report counts at least 2^31 - 1 too many. |
| BulkOverflow.SpawnPlain | conformance/benchmark_steps.java:345-361 | The ranges of that run are the ones its arguments give. |
| BulkOverflow.NeverReturns | conformance/benchmark_steps.java:362-376 | With the largest total and a batch of 2^30 the offsets cycle: the worker can return only by failing. |
| BulkOverflow.OverflowMiscounts | conformance/benchmark_steps.java:362-375 | If some batch start overflows, some failure-free run reaches a counter that is a whole batch ahead of the saved ids. |
| BulkInsert.NothingInserted | conformance/benchmark_steps.java:348-361 | With empty ranges no batch runs and no error is reported. |
| PageWalk.ReadPage | conformance/record_scan_limit_conformance.java:199-226 | The loop over a page's cursor collects exactly its rows, then its end and two repetitions of it, or an exception; given a cursor that reads on, the page is a gapless stretch that its continuation resumes right after. |
| PageWalk.PageUnique | conformance/record_scan_limit_conformance.java:199-226 | The answers of the cursor determine the page. |
| PageWalk.Walk | conformance/record_scan_limit_conformance.java:287-304 | At most 40 pages, each resuming from the one before, stopping for the stated reasons only; their rows are a gapless stretch of the unlimited scan, from its first row without a continuation, and all the rest of it once the source is exhausted. |
| Drain.Database.RunInContext | conformance/conformance_base.java:64-92 | In tenant mode an action is committed whole, or cancelled and leaves the store alone. |
| Drain.DrainOneByOne | conformance/guardiann_probe_conformance.java:110-136 | At most 40 attempts and three failures, the loop stops for exactly those reasons or an empty queue, entries record their attempts, and the store is the initial one advanced by the committed tasks alone. |
| Drain.EmptyOnlyLast | conformance/guardiann_probe_conformance.java:120-122 | Zero executed tasks are recorded only by the last entry. |
| DatabaseCache.Server.CreateDatabase | conformance/conformance_base.java:105-121 | What is returned reads the requested content if and only if it is new or the cached database was opened for that content; a new database makes the key right again; no file of an open database is rewritten; the key goes wrong only by an open that fails while another database is cached. |
| DatabaseCache.StaleAfterFailedOpen | conformance/conformance_base.java:115-117 | After a failed open the next call returns the database of the previous content. |
| ScriptText.ToHex | conformance/ryw_script_conformance.java:214-220 | Two lower-case digits per byte. |
| ScriptText.FromHex | conformance/ryw_script_conformance.java:206-212 | Reads pairs, fails on a pair that is no integer, accepts a sign for the first digit and ignores an odd last character. |
| ScriptText.HexParses | conformance/ryw_script_conformance.java:206-220 | unhex(hex(b)) = b for all bytes. |
| ScriptText.UnhexPrints | conformance/ryw_script_conformance.java:206-220 | hex(unhex(h)) = h if and only if h is an even number of lower-case digits. |
| ScriptText.ValueRoundTrip | conformance/ryw_script_conformance.java:222-235 | A value of at most 64 bytes is recovered, and an absent one is told from an empty one. |
| ScriptText.LongValue | conformance/ryw_script_conformance.java:222-235 | A longer value shows its length and its digest, from which both are recovered, and cannot be read as a short one. |
| ScriptText.DecimalRoundTrip | conformance/ryw_script_conformance.java:222-235 | The length is printed in digits without a leading zero. |
| ScriptText.Kvs | conformance/ryw_script_conformance.java:237-249 | The printed rows, separated by single spaces, or a failure exactly when a key is shorter than the prefix to strip. |
| ScriptText.KvsRoundTrip | conformance/ryw_script_conformance.java:237-249 | A parser recovers every stripped key and every value of at most 64 bytes. |
| Names.ToCamelCase | conformance/conformance_server.java:407-419 | The loop with its flag computes camel case. |
| Names.CamelIdentity | conformance/conformance_server.java:407-419 | Camel case leaves exactly the underscore-free names alone. |
| Names.CamelByLetter | conformance/conformance_server.java:407-419 | Camel case, letter by letter: an underscore vanishes and the letter after one is capitalised. |
| Names.SnakeByLetter | conformance/conformance_server.java:421-423 | Snake case, letter by letter: lower case, with an underscore exactly between a lower-case and an upper-case letter. |
| Names.RoundTrip | conformance/conformance_server.java:407-423 | For underscore-free names, camel case of snake case is the name if and only if every upper-case letter directly follows a lower-case one. |
| Names.CamelStageMatters | conformance/conformance_server.java:364-372 | The camel-case stage of the lookup can change the result if and only if the name holds an underscore. |
| Names.ResolveArguments | conformance/conformance_server.java:360-372 | Every parameter gets the value of its own name, else of its camel case, else of its snake case. |

## Left out

- KMeans, the partition evaluator, the distance estimator, the FoundationDB server and the record load are arbitrary functions; what they compute is not modelled.
- NaN and infinite distances, floating-point rounding and the Gaussian test populations: distances are finite reals.
- Peel.PeelWithSeed: the empty population, which throws before the first fit, and the nanosecond timings are not modelled.
- BatchScan.ScanWithSkip: a negative limit is not modelled, nor are the mapped values of a row or reverse offsets so low that the server refuses them.
- The streaming iterator that reads the same range a second time, read-your-writes and local writes in mapped ranges.
- PipelinedRuns.EveryRunEnds: futures are steps of a transition system; executor threads and timeouts are not modelled, and the fixture's byte constants are replaced by arbitrary sizes.
- PipelinedCursor.Cursor.OnNext: the zeroing of vacated slots is not modelled; a continuation is a position of the source, and a context that ends during a pull shows as an error of the source.
- Simplification.Simplify: no rule of the modelled sets fails, so rule errors are not modelled; evaluation errors and short-circuit evaluation are outside the Kleene meaning.
- SharedSimplification.SimplifyShared: the Go memo is keyed by the identity of a node; the model leaves open whether an equal node is found.
- Simplifier.DefaultRulesWeight: a comparison is a name and a type; that the Go rule for NOT over a comparison drops a parameter name, which takes part in equality, is not modelled.
- ComparisonMeaning.SimplifiedValue: operands are integers or NULL; comparisons other than the six ordered ones have arbitrary values.
- The counts 511 and 2898 of the predicate contract as single cases; what they count is proved for all factors.
- UnionRule.LeanUnionMeaning: which factors may be fixed and which choices are eligible is left to the caller, and quantifiers and the references of a leg are not modelled.
- UnionLegs.FixedFactorPopulation: legs are told apart by structural equality, and the mask is unbounded where Java shifts an int.
- BulkInsert.ReportExact: a failed batch saves nothing, so a commit whose result is unknown is not modelled, nor is the narrowing of the long arguments to int; the asynchronous variant has the same steps.
- Drain.Database.RunInContext: a commit that fails after taking effect, and the retrying path without a tenant, are not modelled.
- PageWalk.Walk: skip and local saves are not modelled, nor the scanned counts and the fields of a row.
- ScriptText.KvsRoundTrip: values longer than 64 bytes are printed as length and digest and cannot be recovered; non-ASCII digits are not modelled.
- Names.RoundTrip: case mapping is ASCII and independent of the locale.
- The save, scan and delete steps per index type, tuple and protobuf encoding, HTTP handling, reflection and the SQL layer: they would add only easy members or call code that is not part of this model.
