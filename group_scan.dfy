/**
 * The group scan over one table: which regions the scan covers and what they
 * cost (`init`), the sub-scan handed to each region, the per-host affinity,
 * the row-count estimate, and `applyAssignments`, which spreads the regions
 * over the execution slots in the three passes of the Locality and Balance
 * modules.
 *
 * A row key that is null and an empty one are the same here (the source treats
 * both alike through `isNullOrEmpty`), and so are a null and an empty column list.
 */
module GroupScan {
  import opened Wrappers
  import opened JavaInts
  import opened Keys
  import opened TableStats
  import opened SlotLists
  import opened Locality
  import opened Balance

  /** The scan's table, its optional start and stop rows (empty: none), and its serialized filter, if any. */
  datatype ScanSpec = ScanSpec(tableName: string, startRow: Key, stopRow: Key, filter: Option<seq<Byte>>)

  /** One entry of the table's region map: the region and the hostname of the server holding it. */
  datatype RegionEntry = RegionEntry(info: Region, server: Host)

  /** The scan of one region that one slot runs. */
  datatype SubScanSpec = SubScanSpec(tableName: string, regionServer: Host, startRow: Key, stopRow: Key,
                                     serializedFilter: Option<seq<Byte>>)

  /** The rows from `lo` (inclusive) to `hi` (exclusive, empty: unbounded). */
  predicate InRange(lo: Key, hi: Key, row: Key)
  {
    !Less(row, lo) && (hi == [] || Less(row, hi))
  }

  // ---------------------------------------------------------------------
  // regionInfoToSubScanSpec (lines 329-337)

  /**
   * The sub-scan of one region: the table name, the region's server and the
   * filter are copied; the scan's start (stop) row is kept when it is set and
   * lies inside the region, and the region's start (end) key is used otherwise.
   */
  function SubScanFor(spec: ScanSpec, e: RegionEntry): (sub: SubScanSpec)
    ensures sub.tableName == spec.tableName && sub.regionServer == e.server
    ensures sub.serializedFilter == spec.filter
    ensures sub.startRow == spec.startRow || sub.startRow == e.info.startKey
    ensures sub.stopRow == spec.stopRow || sub.stopRow == e.info.endKey
  {
    SubScanSpec(spec.tableName, e.server,
                if spec.startRow != [] && Contains(e.info, spec.startRow) then spec.startRow else e.info.startKey,
                if spec.stopRow != [] && Contains(e.info, spec.stopRow) then spec.stopRow else e.info.endKey,
                spec.filter)
  }

  /**
   * For a region the scan does not end before and does not start after, the
   * sub-scan starts at the later of the two start keys and stops at the earlier
   * of the two stop keys.
   */
  lemma SubScanClamps(spec: ScanSpec, e: RegionEntry)
    ensures spec.startRow == [] ==> SubScanFor(spec, e).startRow == e.info.startKey
    ensures spec.startRow != [] && (e.info.endKey == [] || Less(spec.startRow, e.info.endKey)) ==>
              SubScanFor(spec, e).startRow == KeyMax(spec.startRow, e.info.startKey)
    ensures spec.stopRow == [] ==> SubScanFor(spec, e).stopRow == e.info.endKey
    ensures spec.stopRow != [] && !Less(spec.stopRow, e.info.startKey) ==>
              SubScanFor(spec, e).stopRow == (if e.info.endKey == [] then spec.stopRow else KeyMin(spec.stopRow, e.info.endKey))
  {
  }

  /**
   * For such a region, the sub-scan reads exactly the rows that lie both in the
   * region and in the scan's range.
   */
  lemma SubScanIsIntersection(spec: ScanSpec, e: RegionEntry, row: Key)
    requires e.info.endKey == [] || Less(spec.startRow, e.info.endKey)
    requires spec.stopRow == [] || !Less(spec.stopRow, e.info.startKey)
    ensures var sub := SubScanFor(spec, e);
      InRange(sub.startRow, sub.stopRow, row)
      <==> Contains(e.info, row) && InRange(spec.startRow, spec.stopRow, row)
  {
    var r := e.info;
    var start, stop := spec.startRow, spec.stopRow;
    // lower bound
    if start != [] && Contains(r, start) {
      if Less(row, r.startKey) {
        LessBelow(row, start, r.startKey);
      }
    } else if start != [] {
      if Less(row, start) {
        LessTransitive(row, start, r.startKey);
      }
    }
    // upper bound
    if stop != [] && Contains(r, stop) {
      if r.endKey != [] && Less(row, stop) {
        LessTransitive(row, stop, r.endKey);
      }
    } else if stop != [] {
      if Less(row, r.endKey) {
        LessBelow(row, stop, r.endKey);
      }
    }
  }

  // ---------------------------------------------------------------------
  // Region selection in init (lines 155-168)

  /** The map from the first region containing the start row on; all of it without a start row, nothing when no region contains it. */
  function DropBeforeStart(m: seq<RegionEntry>, start: Key): seq<RegionEntry>
  {
    if start == [] || m == [] || Contains(m[0].info, start) then m
    else DropBeforeStart(m[1..], start)
  }

  /** The map up to and including the first region containing the stop row; all of it without a stop row or when none contains it. */
  function TakeThroughStop(m: seq<RegionEntry>, stop: Key): seq<RegionEntry>
  {
    if m == [] then []
    else if stop != [] && Contains(m[0].info, stop) then [m[0]]
    else [m[0]] + TakeThroughStop(m[1..], stop)
  }

  /** The regions a scan from `start` to `stop` covers, in map order. */
  function RegionsInRange(m: seq<RegionEntry>, start: Key, stop: Key): seq<RegionEntry>
  {
    TakeThroughStop(DropBeforeStart(m, start), stop)
  }

  lemma {:induction false} DropBeforeStartIsSuffix(m: seq<RegionEntry>, start: Key) returns (lo: nat)
    ensures lo <= |m| && DropBeforeStart(m, start) == m[lo..]
    ensures start == [] ==> lo == 0
    ensures start != [] ==> forall i :: 0 <= i < lo ==> !Contains(m[i].info, start)
    ensures start != [] && lo < |m| ==> Contains(m[lo].info, start)
  {
    if start == [] || m == [] || Contains(m[0].info, start) {
      lo := 0;
    } else {
      var lo' := DropBeforeStartIsSuffix(m[1..], start);
      lo := lo' + 1;
      assert m[1..][lo'..] == m[lo..];
      forall i | 0 <= i < lo ensures !Contains(m[i].info, start) {
        if i > 0 {
          assert m[i] == m[1..][i - 1];
        }
      }
    }
  }

  lemma {:induction false} TakeThroughStopIsPrefix(m: seq<RegionEntry>, stop: Key) returns (hi: nat)
    ensures hi <= |m| && TakeThroughStop(m, stop) == m[..hi]
    ensures m != [] ==> hi > 0
    ensures stop == [] ==> hi == |m|
    ensures stop != [] ==> forall i :: 0 <= i < hi - 1 ==> !Contains(m[i].info, stop)
    ensures stop != [] && hi < |m| ==> Contains(m[hi - 1].info, stop)
  {
    if m == [] {
      hi := 0;
    } else if stop != [] && Contains(m[0].info, stop) {
      hi := 1;
    } else {
      var hi' := TakeThroughStopIsPrefix(m[1..], stop);
      hi := hi' + 1;
      assert [m[0]] + m[1..][..hi'] == m[..hi];
      forall i | 0 <= i < hi - 1 ensures stop != [] ==> !Contains(m[i].info, stop) {
        if i > 0 {
          assert m[i] == m[1..][i - 1];
        }
      }
      if hi < |m| && stop != [] {
        assert m[hi - 1] == m[1..][hi' - 1];
      }
    }
  }

  /**
   * The selected regions are one contiguous run m[lo..hi] of the map: every
   * region before it misses the start row and its first region contains it
   * (when there is a start row); no region of it but the last contains the stop
   * row, and the run stops short of the map's end only after a region
   * containing the stop row; the run is empty only when the map has no region
   * containing the start row.
   */
  lemma RegionsInRangeIsRun(m: seq<RegionEntry>, start: Key, stop: Key) returns (lo: nat, hi: nat)
    ensures lo <= hi <= |m| && RegionsInRange(m, start, stop) == m[lo..hi]
    ensures start == [] ==> lo == 0
    ensures start != [] ==> forall i :: 0 <= i < lo ==> !Contains(m[i].info, start)
    ensures start != [] && lo < |m| ==> Contains(m[lo].info, start)
    ensures lo < |m| ==> lo < hi
    ensures stop == [] ==> hi == |m|
    ensures stop != [] ==> forall i :: lo <= i < hi - 1 ==> !Contains(m[i].info, stop)
    ensures stop != [] && hi < |m| ==> Contains(m[hi - 1].info, stop)
  {
    lo := DropBeforeStartIsSuffix(m, start);
    var k := TakeThroughStopIsPrefix(m[lo..], stop);
    hi := lo + k;
    assert m[lo..][..k] == m[lo..hi];
    forall i | lo <= i < hi - 1 ensures stop != [] ==> !Contains(m[i].info, stop) {
      assert m[i] == m[lo..][i - lo];
    }
    if stop != [] && hi < |m| {
      assert m[hi - 1] == m[lo..][k - 1];
    }
  }

  lemma ConcatAssoc<T>(a: seq<T>, b: seq<T>, c: seq<T>)
    ensures a + (b + c) == (a + b) + c
  {
  }

  /** What is still to be selected after looking at m[..i]: the rest of the run once its first region was found. */
  function Pending(m: seq<RegionEntry>, start: Key, stop: Key, i: nat, found: bool): seq<RegionEntry>
    requires i <= |m|
  {
    if found then TakeThroughStop(m[i..], stop) else RegionsInRange(m[i..], start, stop)
  }

  /** The selection loop's invariant: the regions taken so far and the pending ones make up the scan's regions. */
  ghost predicate Selecting(m: seq<RegionEntry>, start: Key, stop: Key, i: nat, found: bool, selected: seq<RegionEntry>)
  {
    && i <= |m|
    && (!found ==> selected == [])
    && RegionsInRange(m, start, stop) == selected + Pending(m, start, stop, i, found)
  }

  /** A region before the first one containing the start row adds nothing to the scan. */
  lemma SelectSkip(m: seq<RegionEntry>, start: Key, stop: Key, i: nat, selected: seq<RegionEntry>)
    requires Selecting(m, start, stop, i, false, selected)
    requires i < |m| && start != [] && !Contains(m[i].info, start)
    ensures Selecting(m, start, stop, i + 1, false, selected)
  {
    assert m[i..][0] == m[i] && m[i..][1..] == m[i + 1..];
  }

  /** Once the start region is reached, each region is taken, and the scan ends after the one containing the stop row. */
  lemma SelectTake(m: seq<RegionEntry>, start: Key, stop: Key, i: nat, found: bool, selected: seq<RegionEntry>)
    requires Selecting(m, start, stop, i, found, selected)
    requires i < |m| && (found || start == [] || Contains(m[i].info, start))
    ensures stop != [] && Contains(m[i].info, stop) ==> RegionsInRange(m, start, stop) == selected + [m[i]]
    ensures !(stop != [] && Contains(m[i].info, stop)) ==> Selecting(m, start, stop, i + 1, true, selected + [m[i]])
  {
    var rest := if stop != [] && Contains(m[i].info, stop) then [] else TakeThroughStop(m[i + 1..], stop);
    PendingTake(m, start, stop, i, found);
    ConcatAssoc(selected, [m[i]], rest);
  }

  lemma PendingTake(m: seq<RegionEntry>, start: Key, stop: Key, i: nat, found: bool)
    requires i < |m| && (found || start == [] || Contains(m[i].info, start))
    ensures Pending(m, start, stop, i, found)
         == [m[i]] + (if stop != [] && Contains(m[i].info, stop) then [] else TakeThroughStop(m[i + 1..], stop))
  {
    assert m[i..][0] == m[i] && m[i..][1..] == m[i + 1..];
    assert !found ==> DropBeforeStart(m[i..], start) == m[i..];
  }

  /** At the end of the map nothing is pending. */
  lemma SelectEnd(m: seq<RegionEntry>, start: Key, stop: Key, found: bool, selected: seq<RegionEntry>)
    requires Selecting(m, start, stop, |m|, found, selected)
    ensures RegionsInRange(m, start, stop) == selected
  {
    assert m[|m|..] == [];
  }

  /** The summed size of the given regions, as `getRegionSizeInBytes` reports each. */
  function ScanSize(stats: TableStats, es: seq<RegionEntry>): int
  {
    if es == [] then 0
    else ScanSize(stats, es[..|es| - 1]) + stats.RegionSizeInBytes(es[|es| - 1].info.name)
  }

  lemma ScanSizeSnoc(stats: TableStats, es: seq<RegionEntry>, e: RegionEntry)
    ensures ScanSize(stats, es + [e]) == ScanSize(stats, es) + stats.RegionSizeInBytes(e.info.name)
  {
    assert (es + [e])[..|es|] == es;
  }

  /**
   * Lines 155-168: walk the map in order, skip regions until one contains the
   * start row, take each region from then on and add its size, and stop after
   * a region containing the stop row.
   */
  method SelectRegions(m: seq<RegionEntry>, spec: ScanSpec, stats: TableStats)
    returns (selected: seq<RegionEntry>, scanSize: int)
    ensures selected == RegionsInRange(m, spec.startRow, spec.stopRow)
    ensures scanSize == ScanSize(stats, selected)
  {
    var foundStartRegion := false;
    selected, scanSize := [], 0;
    var i := 0;
    while i < |m|
      invariant Selecting(m, spec.startRow, spec.stopRow, i, foundStartRegion, selected)
      invariant scanSize == ScanSize(stats, selected)
    {
      var entry := m[i];
      if !foundStartRegion && spec.startRow != [] && !Contains(entry.info, spec.startRow) {
        SelectSkip(m, spec.startRow, spec.stopRow, i, selected);
        i := i + 1;
        continue;
      }
      SelectTake(m, spec.startRow, spec.stopRow, i, foundStartRegion, selected);
      ScanSizeSnoc(stats, selected, entry);
      foundStartRegion := true;
      selected := selected + [entry];
      scanSize := scanSize + stats.RegionSizeInBytes(entry.info.name);
      if spec.stopRow != [] && Contains(entry.info, spec.stopRow) {
        return;
      }
      i := i + 1;
    }
    SelectEnd(m, spec.startRow, spec.stopRow, foundStartRegion, selected);
  }

  // ---------------------------------------------------------------------
  // getOperatorAffinity (lines 189-212)

  /** How many of the regions sit on a server with hostname h. */
  function HostCount(es: seq<RegionEntry>, h: Host): nat
  {
    if es == [] then 0
    else HostCount(es[..|es| - 1], h) + (if es[|es| - 1].server == h then 1 else 0)
  }

  lemma {:induction false} HostCountPositive(es: seq<RegionEntry>, h: Host)
    ensures HostCount(es, h) > 0 <==> exists i :: 0 <= i < |es| && es[i].server == h
  {
    if es != [] {
      var n := |es| - 1;
      HostCountPositive(es[..n], h);
      if exists i :: 0 <= i < |es| && es[i].server == h {
        var i :| 0 <= i < |es| && es[i].server == h;
        if i < n {
          assert es[..n][i] == es[i];
        }
      }
      if exists i :: 0 <= i < n && es[..n][i].server == h {
        var i :| 0 <= i < n && es[..n][i].server == h;
        assert es[i] == es[..n][i];
      }
    }
  }

  /**
   * Lines 193-211: an endpoint gets one unit of affinity per region on a server
   * with its address; endpoints sharing an address share one entry.
   */
  method OperatorAffinity(bits: seq<Host>, regionsToScan: seq<RegionEntry>) returns (affinity: map<Host, nat>)
    ensures forall h :: h in affinity <==> h in bits && HostCount(regionsToScan, h) > 0
    ensures forall h :: h in affinity ==> affinity[h] == HostCount(regionsToScan, h)
  {
    var endpointMap: set<Host> := {};
    for i := 0 to |bits|
      invariant forall h :: h in endpointMap <==> h in bits[..i]
    {
      assert bits[..i + 1] == bits[..i] + [bits[i]];
      endpointMap := endpointMap + {bits[i]};
    }
    assert bits[..|bits|] == bits;
    affinity := map[];
    for i := 0 to |regionsToScan|
      invariant forall h :: h in affinity <==> h in endpointMap && HostCount(regionsToScan[..i], h) > 0
      invariant forall h :: h in affinity ==> affinity[h] == HostCount(regionsToScan[..i], h)
    {
      var sn := regionsToScan[i].server;
      assert regionsToScan[..i + 1][..i] == regionsToScan[..i];
      if sn in endpointMap {
        if sn !in affinity {
          affinity := affinity[sn := 1];
        } else {
          affinity := affinity[sn := affinity[sn] + 1];
        }
      }
    }
    assert regionsToScan[..|regionsToScan|] == regionsToScan;
  }

  // ---------------------------------------------------------------------
  // getScanStats (lines 357-363)

  datatype Exactness = NoExactRowCount | ExactRowCount

  /** The estimate: exactness, row count, CPU cost, and the integer factor the disk cost multiplies the scan size by. */
  datatype ScanStats = ScanStats(exactness: Exactness, rowCount: int, cpuCost: int, diskCostFactor: int)

  /** The runtime exceptions the modelled code can raise. */
  datatype JavaException = ArithmeticException | IllegalArgumentException | NullPointerException

  /**
   * The row count is the long quotient of the scan size by the average row
   * size, halved (toward zero) under a filter; the disk cost's factor is the
   * column count divided by the columns per row. Either integer division by
   * zero raises an ArithmeticException.
   */
  function EstimateScanStats(scanSize: int, stats: TableStats, hasFilter: bool, columnCount: nat)
    : (r: Result<ScanStats, JavaException>)
    ensures r.Failure? <==> stats.avgRowSizeInBytes == 0 || (columnCount > 0 && stats.colsPerRow == 0)
    ensures r.Failure? ==> r.error == ArithmeticException
    ensures r.Success? ==> r.value.exactness == NoExactRowCount && r.value.cpuCost == 1
  {
    if stats.avgRowSizeInBytes == 0 then Failure(ArithmeticException)
    else
      var rows := TruncDiv(scanSize, stats.avgRowSizeInBytes);
      var rowCount := if hasFilter then TruncDiv(rows, 2) else rows;
      if columnCount == 0 then Success(ScanStats(NoExactRowCount, rowCount, 1, 1))
      else if stats.colsPerRow == 0 then Failure(ArithmeticException)
      else Success(ScanStats(NoExactRowCount, rowCount, 1, TruncDiv(columnCount, stats.colsPerRow)))
  }

  /**
   * For a non-negative scan size and a positive average row size, the row count
   * is how many whole average rows fit in the scan, and half of that (rounded
   * down) under a filter.
   */
  lemma RowCountEstimate(scanSize: int, stats: TableStats, hasFilter: bool, columnCount: nat)
    requires scanSize >= 0 && stats.avgRowSizeInBytes > 0
    requires columnCount == 0 || stats.colsPerRow != 0
    ensures var r := EstimateScanStats(scanSize, stats, hasFilter, columnCount);
      var avg := stats.avgRowSizeInBytes;
      r.Success?
      && (!hasFilter ==> r.value.rowCount * avg <= scanSize < (r.value.rowCount + 1) * avg)
      && (hasFilter ==> 0 <= 2 * r.value.rowCount <= scanSize / avg <= 2 * r.value.rowCount + 1)
  {
    var avg := stats.avgRowSizeInBytes;
    var q := scanSize / avg;
    assert scanSize == avg * q + scanSize % avg;
    assert (q + 1) * avg == q * avg + avg;
    assert q == 2 * (q / 2) + q % 2;
  }

  // ---------------------------------------------------------------------
  // The group scan

  type Column = string

  /** A column list as the scan keeps it: never empty, since an empty one is replaced by the star column. */
  type ColumnList = cs: seq<Column> | cs != [] witness ["**"]

  /** Stands for the framework's star-column list, which a scan without columns reads; only its length, 1, matters here. */
  const ALL_COLUMNS: ColumnList := ["**"]

  /** How applyAssignments ends. */
  datatype Outcome = Assigned | Failed(exception: JavaException)

  /** The hostnames of the regions' servers, by region index. */
  function Hosts(rs: seq<RegionEntry>): (hosts: seq<Host>)
    ensures |hosts| == |rs| && forall i :: 0 <= i < |rs| ==> hosts[i] == rs[i].server
  {
    seq(|rs|, i requires 0 <= i < |rs| => rs[i].server)
  }

  /** The names of the regions in the map: the regions the size map may record. */
  function RegionNames(m: seq<RegionEntry>): (names: set<Key>)
    ensures forall i :: 0 <= i < |m| ==> m[i].info.name in names
  {
    set e | e in m :: e.info.name
  }

  /** `order` visits every region index below n exactly once: it is a permutation of 0..n-1. */
  predicate IsPermutation(order: seq<nat>, n: nat)
  {
    |order| == n && ValidOrder(order, n) && multiset(order) == multiset(seq(n, i => i))
  }

  /** Every slot list holds region indices below n. */
  predicate ValidLists(ls: seq<seq<nat>>, n: nat)
  {
    forall i, j :: 0 <= i < |ls| && 0 <= j < |ls[i]| ==> ls[i][j] < n
  }

  /** The lists of sub-scans for lists of region indices. */
  function SpecsOf(spec: ScanSpec, rs: seq<RegionEntry>, ls: seq<seq<nat>>): (m: seq<seq<SubScanSpec>>)
    requires ValidLists(ls, |rs|)
    ensures |m| == |ls| && forall i :: 0 <= i < |ls| ==> |m[i]| == |ls[i]|
    ensures forall i, j :: 0 <= i < |ls| && 0 <= j < |ls[i]| ==> m[i][j] == SubScanFor(spec, rs[ls[i][j]])
  {
    seq(|ls|, i requires 0 <= i < |ls| => seq(|ls[i]|, j requires 0 <= j < |ls[i]| => SubScanFor(spec, rs[ls[i][j]])))
  }

  lemma ListsWithinOrder(ls: seq<seq<nat>>, order: seq<nat>, n: nat)
    requires ValidOrder(order, n) && multiset(Flatten(ls)) <= multiset(order)
    ensures ValidLists(ls, n)
  {
    forall i, j | 0 <= i < |ls| && 0 <= j < |ls[i]| ensures ls[i][j] < n {
      FlattenHolds(ls, i, j);
      assert ls[i][j] in multiset(order);
    }
  }

  class KuduGroupScan {
    const spec: ScanSpec
    const columns: ColumnList
    const stats: TableStats
    /** The selected regions, in map order; a region's index in it is how the slot lists name it. */
    const regionsToScan: seq<RegionEntry>
    const scanSizeInBytes: int
    /** Per slot, the sub-scans it runs; None until applyAssignments has run. */
    var endpointFragmentMapping: Option<seq<seq<SubScanSpec>>>
    /** Per slot, the indices of the regions behind `endpointFragmentMapping`. */
    ghost var assignment: seq<seq<nat>>

    /**
     * Lines 111-119 and 147-175: keep the scan spec, default the columns, build
     * the table statistics over the table's regions, and select the regions to
     * scan with their summed size. `regionsMap` is the table's region map in
     * order; `rows`, `configured`, `enabled` and `clusterStatus` are what the
     * statistics calculator reads from the cluster and the configuration.
     */
    constructor (spec: ScanSpec, columns: seq<Column>, regionsMap: seq<RegionEntry>, rows: seq<Row>,
                 configured: Option<Int32>, enabled: bool, clusterStatus: Option<seq<seq<RegionLoad>>>)
      ensures this.spec == spec
      ensures this.columns == if columns == [] then ALL_COLUMNS else columns
      ensures var sample := Sampled(rows, RowsToSample(configured));
        stats.avgRowSizeInBytes == AvgRowSize(sample) && stats.colsPerRow == AvgColumns(sample)
      ensures stats.sizeMap == SizeMapOption(enabled, RegionNames(regionsMap), clusterStatus)
      ensures regionsToScan == RegionsInRange(regionsMap, spec.startRow, spec.stopRow)
      ensures scanSizeInBytes == ScanSize(stats, regionsToScan)
      ensures endpointFragmentMapping == None
    {
      this.spec := spec;
      this.columns := if columns == [] then ALL_COLUMNS else columns;
      var st := Compute(rows, configured, enabled, RegionNames(regionsMap), clusterStatus);
      var selected, size := SelectRegions(regionsMap, spec, st);
      stats := st;
      regionsToScan := selected;
      scanSizeInBytes := size;
      endpointFragmentMapping := None;
      assignment := [];
    }

    /** Lines 189-212, over this scan's regions; `bits` are the addresses of the cluster's endpoints. */
    method GetOperatorAffinity(bits: seq<Host>) returns (affinity: map<Host, nat>)
      ensures forall h :: h in affinity <==> h in bits && HostCount(regionsToScan, h) > 0
      ensures forall h :: h in affinity ==> affinity[h] == HostCount(regionsToScan, h)
    {
      affinity := OperatorAffinity(bits, regionsToScan);
    }

    /** Lines 357-363: the estimate fails exactly when one of the two sample averages is 0. */
    function GetScanStats(): (r: Result<ScanStats, JavaException>)
      ensures r.Failure? <==> stats.avgRowSizeInBytes == 0 || stats.colsPerRow == 0
      ensures r.Success? ==> r.value.diskCostFactor == TruncDiv(|columns|, stats.colsPerRow)
    {
      EstimateScanStats(scanSizeInBytes, stats, spec.filter.Some?, |columns|)
    }
  
    /**
     * Lines 219-327. With N endpoints and P regions to scan: more endpoints than
     * regions is an argument error that leaves the mapping alone. No endpoint at
     * all passes that check, empties the mapping, and then fails building the
     * heaps, whose capacity must be positive. Otherwise the locality pass, the
     * fill pass and the rebalance pass run over per-slot lists, which become the
     * new mapping; the fill pass fails with a null dereference exactly when more
     * regions are left over from the locality pass than the slots below the
     * floor can take, and the mapping then holds the lists as they were at that
     * moment. `order` is the iteration order of the region set, which the source
     * leaves unspecified.
     */
    method ApplyAssignments(endpoints: seq<Host>, order: seq<nat>) returns (outcome: Outcome)
      requires IsPermutation(order, |regionsToScan|)
      requires |regionsToScan| <= INT_MAX
      modifies this
      ensures |endpoints| > |regionsToScan| ==>
                outcome == Failed(IllegalArgumentException)
                && endpointFragmentMapping == old(endpointFragmentMapping) && assignment == old(assignment)
      ensures |endpoints| == 0 ==>
                outcome == Failed(IllegalArgumentException)
                && endpointFragmentMapping == Some([]) && assignment == []
      ensures 0 < |endpoints| <= |regionsToScan| ==>
                var p, n := |regionsToScan|, |endpoints|;
                var hosts := Hosts(regionsToScan);
                var local := LocalAssignment(hosts, order, endpoints);
                var minPer, maxPer := MinPerSlot(p, n), MaxPerSlot(p, n);
                && (outcome == Assigned || outcome == Failed(NullPointerException))
                && (outcome == Assigned <==> |Remote(hosts, order, endpoints)| <= FillCapacity(local, minPer, maxPer))
                && |assignment| == n && ValidLists(assignment, p)
                && endpointFragmentMapping == Some(SpecsOf(spec, regionsToScan, assignment))
                && (outcome == Assigned ==> Spread(local, assignment, order, minPer, maxPer))
                && (outcome != Assigned ==> Stalled(local, Remote(hosts, order, endpoints), assignment, minPer, maxPer))
    {
      var p, n := |regionsToScan|, |endpoints|;
      if n > p {
        return Failed(IllegalArgumentException);
      }
      var lists;
      outcome, lists := AssignSlots(endpoints, Hosts(regionsToScan), order);
      endpointFragmentMapping := Some(SpecsOf(spec, regionsToScan, lists));
      assignment := lists;
    }
  }

  /**
   * Lines 227-318 once the argument check has passed, over region indices:
   * `hosts[r]` is the server of region r and `order` the order the region set
   * is walked in. The lists are the slot lists as the passes leave them; `ok`
   * is false where the fill pass polls an empty heap, and the lists are then
   * those filled up to that point. On success every region is in exactly one
   * slot, every slot holds at least the floor P/N and at most its locality
   * share or the ceiling, whichever is larger, and keeps the first regions its
   * locality pass gave it; no slot is left empty. With no slot at all the
   * heaps cannot be built (line 282) and the lists stay empty.
   */
  method AssignSlots(endpoints: seq<Host>, hosts: seq<Host>, order: seq<nat>)
    returns (outcome: Outcome, lists: seq<seq<nat>>)
    requires |endpoints| <= |hosts| <= INT_MAX
    requires IsPermutation(order, |hosts|)
    ensures |endpoints| == 0 ==> outcome == Failed(IllegalArgumentException) && lists == []
    ensures |endpoints| > 0 ==>
            var p, n := |hosts|, |endpoints|;
            var local := LocalAssignment(hosts, order, endpoints);
            var minPer, maxPer := MinPerSlot(p, n), MaxPerSlot(p, n);
            && (outcome == Assigned || outcome == Failed(NullPointerException))
            && (outcome == Assigned <==> |Remote(hosts, order, endpoints)| <= FillCapacity(local, minPer, maxPer))
            && |lists| == n && ValidLists(lists, p)
            && (outcome == Assigned ==> Spread(local, lists, order, minPer, maxPer))
            && (outcome == Assigned ==> forall i :: 0 <= i < n ==> lists[i] != [])
            && (outcome != Assigned ==> Stalled(local, Remote(hosts, order, endpoints), lists, minPer, maxPer))
  {
    var p, n := |hosts|, |endpoints|;
    if n == 0 {
      // the locality pass has no slot to fill; the heaps' capacity is then rejected
      return Failed(IllegalArgumentException), [];
    }
    var minPer, maxPer := MinPerSlot(p, n), MaxPerSlot(p, n);
    FloorBounds(p, n);
    var local, rest := LocalPhase(endpoints, hosts, order);
    var ok;
    ok, lists := Distribute(local, rest, order, minPer, maxPer);
    ListsWithinOrder(lists, order, p);
    outcome := if ok then Assigned else Failed(NullPointerException);
  }

  /** Lines 246-277: the host queues are built and the locality pass runs over them. */
  method LocalPhase(endpoints: seq<Host>, hosts: seq<Host>, order: seq<nat>)
    returns (local: seq<seq<nat>>, rest: seq<nat>)
    requires ValidOrder(order, |hosts|)
    ensures local == LocalAssignment(hosts, order, endpoints)
    ensures rest == Remote(hosts, order, endpoints)
    ensures multiset(Flatten(local)) + multiset(rest) == multiset(order)
  {
    var lists0, queues0 := BuildHostQueues(endpoints);
    var queues;
    local, rest, queues := LocalityPass(endpoints, hosts, order, lists0, queues0);
  }

  /**
   * Lines 279-318: the fill pass hands the regions the locality pass left over
   * to the slots below the floor, and the rebalance pass then moves regions
   * from the slots above the floor to those still below it.
   */
  method Distribute(local: seq<seq<nat>>, rest: seq<nat>, order: seq<nat>, minPer: int, maxPer: int)
    returns (ok: bool, lists: seq<seq<nat>>)
    requires |local| > 0
    requires 0 <= minPer <= maxPer <= minPer + 1
    requires |local| * minPer <= |order|
    requires multiset(Flatten(local)) + multiset(rest) == multiset(order)
    ensures ok <==> |rest| <= FillCapacity(local, minPer, maxPer)
    ensures |lists| == |local|
    ensures multiset(Flatten(lists)) <= multiset(order)
    ensures ok ==> Spread(local, lists, order, minPer, maxPer)
    ensures !ok ==> Stalled(local, rest, lists, minPer, maxPer)
  {
    var filled, minH;
    ok, filled, minH := FillPass(local, rest, minPer, maxPer);
    if !ok {
      StalledFill(local, rest, filled, minPer, maxPer);
      PartialFill(local, rest, filled, order, FillCapacity(local, minPer, maxPer));
      return ok, filled;
    }
    FilledTotal(local, rest, filled, order);
    lists := Settle(local, filled, minH, order, minPer, maxPer);
  }

  /** Lines 305-318 after a completed fill pass: the rebalance pass brings every slot to the floor. */
  method Settle(local: seq<seq<nat>>, filled: seq<seq<nat>>, minH: set<nat>, order: seq<nat>, minPer: int, maxPer: int)
    returns (lists: seq<seq<nat>>)
    requires 0 <= minPer <= maxPer <= minPer + 1 && |filled| == |local|
    requires |local| * minPer <= |order| && TotalSize(filled) == |order|
    requires multiset(Flatten(filled)) == multiset(order)
    requires forall i :: 0 <= i < |local| && |local[i]| >= minPer ==> filled[i] == local[i]
    requires forall i :: 0 <= i < |local| ==> |local[i]| <= |filled[i]| && filled[i][..|local[i]|] == local[i]
    requires minH <= Below(local, minPer)
    requires forall i :: i in minH ==> |filled[i]| < maxPer
    requires forall i :: i in Below(local, minPer) && i !in minH ==> |filled[i]| == maxPer
    requires (exists i :: i in minH && |filled[i]| < minPer) ==>
               forall i :: 0 <= i < |local| && |local[i]| < minPer ==> |filled[i]| <= minPer
    ensures Spread(local, lists, order, minPer, maxPer)
  {
    RebalanceReady(local, filled, minH, minPer, maxPer);
    lists := Rebalance(filled, minH, Above(local, minPer), minPer);
    BalancedBounds(local, filled, minH, lists, minPer, maxPer);
  }

  /**
   * The balanced lists: every region of `order` in exactly one slot, every slot
   * holding at least minPer regions and at most its locality share or maxPer,
   * whichever is larger, and starting with the first regions of its locality
   * share.
   */
  ghost predicate Spread(local: seq<seq<nat>>, lists: seq<seq<nat>>, order: seq<nat>, minPer: int, maxPer: int)
    requires 0 <= minPer
  {
    && |lists| == |local|
    && multiset(Flatten(lists)) == multiset(order)
    && forall i :: 0 <= i < |lists| ==>
         && minPer <= |lists[i]| <= Max(|local[i]|, maxPer)
         && Min(|local[i]|, minPer) <= |lists[i]|
         && lists[i][..Min(|local[i]|, minPer)] == local[i][..Min(|local[i]|, minPer)]
  }

  /**
   * The lists a fill pass leaves when its heap runs dry: the leftover regions up
   * to the fill capacity have been added, every list still starts with its
   * locality share, and none has grown past the ceiling.
   */
  ghost predicate Stalled(local: seq<seq<nat>>, rest: seq<nat>, lists: seq<seq<nat>>, minPer: int, maxPer: int)
    requires minPer <= maxPer
  {
    && |lists| == |local|
    && FillCapacity(local, minPer, maxPer) <= |rest|
    && multiset(Flatten(lists)) == multiset(Flatten(local)) + multiset(rest[..FillCapacity(local, minPer, maxPer)])
    && forall i :: 0 <= i < |local| ==>
         && |local[i]| <= |lists[i]| <= Max(|local[i]|, maxPer)
         && lists[i][..|local[i]|] == local[i]
  }

  /** What the fill pass guarantees when its heap runs dry makes up `Stalled`. */
  lemma StalledFill(local: seq<seq<nat>>, rest: seq<nat>, filled: seq<seq<nat>>, minPer: int, maxPer: int)
    requires minPer <= maxPer && |filled| == |local|
    requires FillCapacity(local, minPer, maxPer) < |rest|
    requires multiset(Flatten(filled))
          == multiset(Flatten(local)) + multiset(rest[..FillCapacity(local, minPer, maxPer)])
    requires forall i :: 0 <= i < |local| && |local[i]| >= minPer ==> filled[i] == local[i]
    requires forall i :: 0 <= i < |local| ==> |local[i]| <= |filled[i]| && filled[i][..|local[i]|] == local[i]
    requires forall i :: 0 <= i < |local| && |local[i]| < minPer ==> |filled[i]| <= maxPer
    ensures Stalled(local, rest, filled, minPer, maxPer)
  {
  }

  /** With 1 <= N <= P the floor is at least one, and N times it never exceeds P. */
  lemma FloorBounds(p: nat, n: nat)
    requires n <= p <= INT_MAX
    ensures 0 <= MinPerSlot(p, n) && n * MinPerSlot(p, n) <= p
    ensures n > 0 ==> MinPerSlot(p, n) >= 1
  {
  }

  /** A fill pass that took every leftover region holds exactly the regions of the order. */
  lemma FilledTotal(local: seq<seq<nat>>, rest: seq<nat>, filled: seq<seq<nat>>, order: seq<nat>)
    requires multiset(Flatten(local)) + multiset(rest) == multiset(order)
    requires multiset(Flatten(filled)) == multiset(Flatten(local)) + multiset(rest[..|rest|])
    ensures multiset(Flatten(filled)) == multiset(order)
    ensures TotalSize(filled) == |order|
  {
    assert rest[..|rest|] == rest;
    FlattenLength(filled);
    assert |multiset(Flatten(filled))| == |multiset(order)|;
  }

  /** The lists a failed fill pass leaves hold only regions of the order. */
  lemma PartialFill(local: seq<seq<nat>>, rest: seq<nat>, filled: seq<seq<nat>>, order: seq<nat>, k: int)
    requires 0 <= k <= |rest|
    requires multiset(Flatten(local)) + multiset(rest) == multiset(order)
    requires multiset(Flatten(filled)) == multiset(Flatten(local)) + multiset(rest[..k])
    ensures multiset(Flatten(filled)) <= multiset(order)
  {
    assert rest == rest[..k] + rest[k..];
    assert multiset(rest) == multiset(rest[..k]) + multiset(rest[k..]);
  }
}
