# Kudu group scan: region selection, statistics and slot assignment

This project models the planning core of the Drill storage plugin for Kudu.
The model is written in Dafny, and its properties are proved about the model.

`KuduGroupScan` is built from a scan spec: a table, optional start and stop rows, and an optional filter.
Its constructor does two things:

- it collects the table statistics (`TableStatsCalculator`): a bounded sample of rows gives the average row size and the average column count, and the cluster's load report gives each region's size in bytes;
- it walks the table's region map in key order and selects the run of regions the scan covers, summing their sizes.

The group scan then answers three questions from the planner:

- the per-host affinity (`getOperatorAffinity`);
- the row-count and disk-cost estimate (`getScanStats`);
- how the selected regions are spread over N execution slots (`applyAssignments`).

`applyAssignments` runs three passes over per-slot lists:

1. **Locality pass.** A region hosted on a slot's host goes to the slot at the head of that host's round-robin queue.
2. **Fill pass.** The regions left over go, through a min-heap, to the least-loaded slots below the floor P/N.
3. **Rebalance pass.** Regions move from the fullest slots, held in a max-heap, to slots still below the floor.

The modules follow that structure:

- `JavaInts`: 32-bit wrap-around and Java's truncating division.
- `Wrappers`: `Option` and `Result`.
- `Keys`: byte-string row keys, their unsigned order and region containment.
- `TableStats`: the statistics calculator.
- `SlotLists`: slot lists as a multiset of regions, and the "gap" sums used to measure the heaps.
- `Locality`: host queues and the locality pass.
- `Balance`: the fill pass and the rebalance pass.
- `GroupScan`: the `KuduGroupScan` class and the remaining operations.

Slot lists hold region indices into `regionsToScan`. They are turned into sub-scan specs by `SpecsOf` when the mapping is stored.
The region set's hash iteration order is a parameter, `order`, which may be any permutation of the region indices.
A priority-queue poll may return any slot of least (or greatest) size, because ties are broken in an unspecified way.

Where the assignment is commonly described more generously, the model follows the code:

- The assignment is described as keeping every slot between floor(P/N) and ceil(P/N). The code only guarantees the floor. A slot that the locality pass filled above the ceiling can keep those regions, for instance when no slot is below the floor (`Balance.CeilingExceeded`). The rebalance pass only cuts such slots back toward the floor, and only as far as the slots below the floor need.
- The assignment is described as covering every region whenever N <= P. In the code, the fill pass dereferences null when the min-heap runs dry (`Balance.FillRunsDry`). This happens exactly when more regions are left over than the slots below the floor can take.
- The model proves that the rebalance pass's `maxHeap.poll()` is never null once the fill pass has completed.
- N = 0 passes the argument check at line 224. The mapping is then replaced by an empty one. Building the min-heap at line 282 throws an IllegalArgumentException, because a priority queue's initial capacity must be at least 1. The model returns that exception, with an empty mapping, for every P.

## Model

| member | source | states |
|---|---|---|
| TableStats.RowsToSample | src/main/java/org/apache/drill/exec/store/kudu/TableStatsCalculator.java:158-161 | the configured sample count when the key is present, otherwise the default of 100 rows |
| TableStats.Sampled | src/main/java/org/apache/drill/exec/store/kudu/TableStatsCalculator.java:83-87 | the rows read are a prefix of the scanner's rows, of length min(rows available, rowsToSample), and empty when rowsToSample is not positive |
| TableStats.SampleRows | src/main/java/org/apache/drill/exec/store/kudu/TableStatsCalculator.java:81-95 | the sampling loop reads exactly the sampled rows, sums their cells' estimated sizes, and sums their cell counts with 32-bit wrap-around |
| TableStats.NoSampleKeepsDefaults | src/main/java/org/apache/drill/exec/store/kudu/TableStatsCalculator.java:60-62 | with no row read (sampling off or an empty table), both averages keep their initial value 1 |
| TableStats.AvgRowSizeIsFloorMean | src/main/java/org/apache/drill/exec/store/kudu/TableStatsCalculator.java:96-97 | when the mean fits an int, the average row size is the floor of total cell bytes over rows read |
| TableStats.AvgColumnsIsFloorMean | src/main/java/org/apache/drill/exec/store/kudu/TableStatsCalculator.java:96-98 | when the column total fits an int, the columns per row are the floor of total columns over rows read |
| JavaInts.TruncDiv | src/main/java/org/apache/drill/exec/store/kudu/TableStatsCalculator.java:98 | Java int division, truncating toward zero: the remainder a - q*b is smaller than the divisor in magnitude and is zero or has the dividend's sign; for non-negative operands it is the floor quotient |
| TableStats.RegionBytes | src/main/java/org/apache/drill/exec/store/kudu/TableStatsCalculator.java:139-140 | a recorded region size is a positive whole number of MiB (a non-positive MB total counts as 1 MiB) |
| TableStats.BuildSizeMap | src/main/java/org/apache/drill/exec/store/kudu/TableStatsCalculator.java:128-146 | the nested loop over servers and their region loads builds the map by putting every table region's load into it, in report order |
| TableStats.SizeMapKeys | src/main/java/org/apache/drill/exec/store/kudu/TableStatsCalculator.java:132-140 | a region has a size exactly when it belongs to the table and some server reported it |
| TableStats.SizeMapLastLoadWins | src/main/java/org/apache/drill/exec/store/kudu/TableStatsCalculator.java:135-140 | a recorded size is the size of the last load reported for that region |
| TableStats.Compute | src/main/java/org/apache/drill/exec/store/kudu/TableStatsCalculator.java:72-152 | the calculator's state: both averages from the sampled rows; no size map when disabled or when the cluster status is unavailable, and otherwise the map built from the load report |
| TableStats.TableStats.RegionSizeInBytes | src/main/java/org/apache/drill/exec/store/kudu/TableStatsCalculator.java:166-178 | the average row size times 1024*1024 rows without a map; 0 for a region the map lacks; otherwise the recorded size |
| TableStats.RegionSizeFromInputs | src/main/java/org/apache/drill/exec/store/kudu/TableStatsCalculator.java:103-146 | in terms of the constructor's inputs: the heuristic when disabled or without cluster status, 0 outside the table, at least 1 MiB for a reported table region |
| GroupScan.SubScanFor | src/main/java/org/apache/drill/exec/store/kudu/KuduGroupScan.java:329-337 | a sub-scan copies the table name, the region's server and the filter, and takes each bound from the scan or from the region |
| GroupScan.SubScanClamps | src/main/java/org/apache/drill/exec/store/kudu/KuduGroupScan.java:334-335 | for a region overlapping the scan, the sub-scan starts at the later of the two start keys and stops at the earlier of the two stop keys |
| GroupScan.SubScanIsIntersection | src/main/java/org/apache/drill/exec/store/kudu/KuduGroupScan.java:329-337 | for a region overlapping the scan, a row is in the sub-scan's range if and only if it is in the region and in the scan's range |
| GroupScan.RegionsInRangeIsRun | src/main/java/org/apache/drill/exec/store/kudu/KuduGroupScan.java:155-168 | the selected regions are one contiguous run of the map: it starts at the first region containing the start row and ends after the first region from there containing the stop row |
| GroupScan.SelectRegions | src/main/java/org/apache/drill/exec/store/kudu/KuduGroupScan.java:155-168 | the selection loop returns exactly that run, and the sum of `getRegionSizeInBytes` over it |
| GroupScan.KuduGroupScan.constructor | src/main/java/org/apache/drill/exec/store/kudu/KuduGroupScan.java:111-175 | keeps the spec; an empty column list becomes the star list; builds the statistics; selects the regions and their summed size; no mapping yet |
| GroupScan.HostCountPositive | src/main/java/org/apache/drill/exec/store/kudu/KuduGroupScan.java:199-209 | a host has a positive region count if and only if some selected region is on that host |
| GroupScan.OperatorAffinity | src/main/java/org/apache/drill/exec/store/kudu/KuduGroupScan.java:193-211 | an endpoint address gets an affinity entry if and only if it is a known endpoint holding a selected region; the entry's value is the number of such regions |
| GroupScan.KuduGroupScan.GetOperatorAffinity | src/main/java/org/apache/drill/exec/store/kudu/KuduGroupScan.java:189-212 | the same, over this scan's selected regions |
| GroupScan.EstimateScanStats | src/main/java/org/apache/drill/exec/store/kudu/KuduGroupScan.java:357-363 | the estimate fails with an ArithmeticException exactly when the average row size is 0, or when columns are listed and the columns per row are 0; otherwise it is inexact with a CPU cost of 1 |
| GroupScan.RowCountEstimate | src/main/java/org/apache/drill/exec/store/kudu/KuduGroupScan.java:359 | the row count is how many whole average rows fit in the scan size, and half of that, rounded down, under a filter |
| GroupScan.KuduGroupScan.GetScanStats | src/main/java/org/apache/drill/exec/store/kudu/KuduGroupScan.java:357-363 | for this scan, which always has at least one column, the estimate fails exactly when either average is 0; the disk-cost factor is the column count over the columns per row |
| Balance.MinPerSlot | src/main/java/org/apache/drill/exec/store/kudu/KuduGroupScan.java:230 | the floor of P/N: N times it is at most P and N times its successor exceeds P; at least 1 when 1 <= N <= P; the N = 0 cases |
| Balance.MaxPerSlot | src/main/java/org/apache/drill/exec/store/kudu/KuduGroupScan.java:231 | the ceiling of P/N: N times it is at least P and N times its predecessor is below P; equal to the floor, or one above it |
| Locality.BuildHostQueues | src/main/java/org/apache/drill/exec/store/kudu/KuduGroupScan.java:246-255 | one empty list per slot, and one queue per endpoint address holding that address's slot indices in ascending order |
| Locality.LocalityPass | src/main/java/org/apache/drill/exec/store/kudu/KuduGroupScan.java:257-277 | the lists are the round-robin locality assignment and the unassigned regions are those whose host runs no slot; together they hold exactly the regions; each host's queue ends rotated by its region count |
| GroupScan.LocalPhase | src/main/java/org/apache/drill/exec/store/kudu/KuduGroupScan.java:246-277 | the host queues are built and the locality pass run: the lists are the round-robin locality assignment, the rest are the regions on hosts without a slot, and together they hold every region once |
| Locality.VisitRegion | src/main/java/org/apache/drill/exec/store/kudu/KuduGroupScan.java:263-276 | one iteration of the locality pass keeps all of that pass's invariants, one region further on |
| Locality.AssignedSize | src/main/java/org/apache/drill/exec/store/kudu/KuduGroupScan.java:267-273 | the slot at position j of an m-slot host queue receives k/m regions, plus one when j < k mod m, of that host's k regions |
| Locality.AssignedHosts | src/main/java/org/apache/drill/exec/store/kudu/KuduGroupScan.java:267-271 | every region the locality pass gives a slot is hosted on that slot's host |
| Locality.RemoteHosts | src/main/java/org/apache/drill/exec/store/kudu/KuduGroupScan.java:267-276 | no region left over by the locality pass is hosted on any slot's host |
| Balance.Below | src/main/java/org/apache/drill/exec/store/kudu/KuduGroupScan.java:284-286 | the slots offered to the min-heap: exactly those whose list is shorter than the floor |
| Balance.Above | src/main/java/org/apache/drill/exec/store/kudu/KuduGroupScan.java:287-288 | the slots offered to the max-heap: exactly those whose list is longer than the floor |
| Balance.FillPass | src/main/java/org/apache/drill/exec/store/kudu/KuduGroupScan.java:295-303 | it completes if and only if the leftover regions fit below the ceiling of the slots that started below the floor; those regions, or the ones placed before the null poll, are added; other slots are unchanged and lists only grow at their end |
| Balance.FillRunsDry | src/main/java/org/apache/drill/exec/store/kudu/KuduGroupScan.java:295-297 | ten regions, three slots holding three each and one left over: the fill pass polls an empty heap |
| SlotLists.MoveLastKeepsRegions | src/main/java/org/apache/drill/exec/store/kudu/KuduGroupScan.java:311 | moving the last region of one slot to the end of another keeps the multiset of regions |
| Balance.MaxHeapHasDonor | src/main/java/org/apache/drill/exec/store/kudu/KuduGroupScan.java:308-310 | while a min-heap slot is below the floor and the heaps together hold at least their floor's worth, the max-heap has a slot to poll |
| Balance.Rebalance | src/main/java/org/apache/drill/exec/store/kudu/KuduGroupScan.java:305-318 | the loop ends with every min-heap slot at the floor; max-heap slots are cut back to no less than the floor; no other slot changes; the regions are the same |
| Balance.RebalanceReady | src/main/java/org/apache/drill/exec/store/kudu/KuduGroupScan.java:282-303 | after a completed fill pass, the heaps hold what the rebalance pass needs, including enough regions for the max-heap never to run dry |
| Balance.BalancedBounds | src/main/java/org/apache/drill/exec/store/kudu/KuduGroupScan.java:282-318 | after both passes every slot holds at least the floor and at most the larger of its locality share and the ceiling, and keeps the first regions of its locality share |
| Balance.CeilingExceeded | src/main/java/org/apache/drill/exec/store/kudu/KuduGroupScan.java:282-318 | eight regions on three slots holding 4, 2 and 2: a slot ends with 4 regions, above the ceiling of 3 |
| GroupScan.Distribute | src/main/java/org/apache/drill/exec/store/kudu/KuduGroupScan.java:279-318 | the fill and rebalance passes over at least one slot: they complete exactly when the leftovers fit, and then every region is in exactly one slot within the bounds above; when the heap runs dry the lists hold the locality lists plus the leftovers placed so far, each within the ceiling |
| GroupScan.Settle | src/main/java/org/apache/drill/exec/store/kudu/KuduGroupScan.java:305-318 | after a completed fill pass, the rebalance pass leaves every region in exactly one slot, each slot between the floor and the larger of its locality share and the ceiling, starting with its locality share's first regions |
| GroupScan.AssignSlots | src/main/java/org/apache/drill/exec/store/kudu/KuduGroupScan.java:227-323 | no slot: an IllegalArgumentException from the heap capacity, with no lists; otherwise all three passes, failing with a NullPointerException exactly when the locality pass leaves more regions than the fill capacity, with the partial lists stated exactly; on success every region is in exactly one slot, within the bounds, and no slot is empty (the assertion at line 321) |
| GroupScan.KuduGroupScan.ApplyAssignments | src/main/java/org/apache/drill/exec/store/kudu/KuduGroupScan.java:219-327 | more endpoints than regions is an IllegalArgumentException with the mapping unchanged; no endpoint is an IllegalArgumentException with an empty mapping; otherwise the mapping holds the sub-scans of the slot lists, with a NullPointerException exactly when the fill pass runs dry, and then the mapping holds the lists as the fill pass left them |

## Left out

- The Kudu/HBase client calls are not modelled. This covers opening the table, reading its region locations and descriptor, the scanner and the cluster-status query. Their results are parameters: the region map, the rows, the configured sample count, the enabled flag, and the load report (None when the query threw or returned null).
- The cluster endpoints returned by `getBits` are a parameter.
- Logging, the stopwatch and `admin.close()` are not modelled, since they have no effect on the results.
- TableStats.SampleRows: the long `rowSizeSum` is unbounded here, so its 64-bit overflow is not modelled. The `(int)` cast of the average is modelled.
- GroupScan.SelectRegions: the long `scanSizeInBytes` is unbounded here, so its 64-bit overflow is not modelled.
- GroupScan.EstimateScanStats: the double arithmetic is not modelled bit for bit. The row count is the long quotient, halved toward zero under a filter, which matches the double product and cast while the quotient stays below 2^53. The float disk cost is represented by its integer factor, `columns.size() / colsPerRow`, which multiplies the scan size.
- GroupScan.OperatorAffinity: affinity values are counts rather than doubles. Endpoints sharing an address share one entry, keyed by address. In the source the last such endpoint holds that entry.
- The column-family check in `verifyColumns` (lines 177-187) is not modelled, and neither is the error it raises for an unknown column family. The table descriptor it reads is not part of this model.
- Also not modelled: JSON (de)serialisation, `clone`, `getSpecificScan`, `getMaxParallelizationWidth`, the getters, `toString` and the test-only constructors.
- `getNewWithChildren` is not modelled. It throws an IllegalArgumentException for a non-empty child list (line 368) and otherwise returns a copy.
- The setters are not modelled. Among them, `setFilterPushedDown` ignores its argument and always stores true (lines 421-422).
- The framework's star-column list `ALL_COLUMNS` is not part of this model. It is represented by a one-element list.
- The test class TestKuduConnect is not part of this model.
- GroupScan.SubScanIsIntersection: it requires the region to overlap the scan's range. Selection produces only such regions when the region map is sorted and contiguous and the start row is not after the stop row. The map's sortedness is not modelled. With an inverted range (start row after a set stop row), selection runs from the start region to the end of the map, and those sub-scans read past the scan's own empty range.
- The Java `assert` at line 321 is proved, for a completed fill pass, by GroupScan.AssignSlots. It is not modelled as a run-time check.
