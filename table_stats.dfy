/**
 * The table statistics calculator: a bounded row sample gives the average row
 * size and column count, and the cluster's per-region load report gives each
 * region's size in bytes. The calculator's state is fixed once its constructor
 * has run, so it is modelled as a value built by `Compute`.
 */
module TableStats {
  import opened JavaInts
  import opened Wrappers
  import opened Keys

  /** Rows assumed per region when no size map could be built. */
  const DEFAULT_ROW_COUNT: int := 1024 * 1024

  /** Rows sampled when the configuration does not set the sample count. */
  const DEFAULT_SAMPLE_SIZE: int := 100

  const MIB: int := 1024 * 1024

  /** One sampled row: its cell count (`Result.size()`) and each cell's estimated size in bytes. */
  datatype Row = Row(size: nat, cellSizes: seq<nat>)

  /** One region's entry in a server's load report. */
  datatype RegionLoad = RegionLoad(name: Key, memStoreSizeMB: Int32, storefileSizeMB: Int32)

  /** What the calculator keeps: the optional size map and the two sample averages. */
  datatype TableStats = TableStats(sizeMap: Option<map<Key, int>>, avgRowSizeInBytes: Int32, colsPerRow: Int32)
  {
    /** Size of a region in bytes: the recorded size, 0 for a region the map lacks, or a heuristic without a map. */
    function RegionSizeInBytes(regionId: Key): (size: int)
      ensures sizeMap.None? ==> size == avgRowSizeInBytes * DEFAULT_ROW_COUNT
      ensures sizeMap.Some? && regionId !in sizeMap.value ==> size == 0
      ensures sizeMap.Some? && regionId in sizeMap.value ==> size == sizeMap.value[regionId]
    {
      match sizeMap
      case None => avgRowSizeInBytes * DEFAULT_ROW_COUNT
      case Some(m) => if regionId in m then m[regionId] else 0
    }
  }

  /** The configured sample count when the key is present, otherwise the default. */
  function RowsToSample(configured: Option<Int32>): (n: Int32)
    ensures configured.Some? ==> n == configured.value
    ensures configured.None? ==> n == DEFAULT_SAMPLE_SIZE
  {
    match configured
    case Some(v) => v
    case None => DEFAULT_SAMPLE_SIZE
  }

  // ---------------------------------------------------------------------
  // Sampling

  /** The rows the sampling loop reads: at most `rowsToSample`, none when it is not positive. */
  function Sampled(rows: seq<Row>, rowsToSample: int): (s: seq<Row>)
    ensures |s| <= |rows| && s == rows[..|s|]
    ensures rowsToSample <= 0 ==> s == []
    ensures rowsToSample > 0 ==> |s| == if |rows| < rowsToSample then |rows| else rowsToSample
  {
    if rowsToSample <= 0 then []
    else if |rows| < rowsToSample then rows
    else rows[..rowsToSample]
  }

  function CellBytes(cells: seq<nat>): nat
  {
    if cells == [] then 0 else CellBytes(cells[..|cells| - 1]) + cells[|cells| - 1]
  }

  function SampleBytes(rows: seq<Row>): nat
  {
    if rows == [] then 0 else SampleBytes(rows[..|rows| - 1]) + CellBytes(rows[|rows| - 1].cellSizes)
  }

  function SampleColumns(rows: seq<Row>): nat
  {
    if rows == [] then 0 else SampleColumns(rows[..|rows| - 1]) + rows[|rows| - 1].size
  }

  /** Average row size: the `(int)` cast of total cell bytes over the rows read, or 1 when none was read. */
  function AvgRowSize(sample: seq<Row>): Int32
  {
    if sample == [] then 1 else Wrap32(SampleBytes(sample) / |sample|)
  }

  /** Average column count: the 32-bit column total over the rows read (Java division), or 1 when none was read. */
  function AvgColumns(sample: seq<Row>): Int32
  {
    if sample == [] then 1 else TruncDiv(Wrap32(SampleColumns(sample)), |sample|)
  }

  /** The sampling loop: reads rows until `rowsToSample` are read or the scanner is exhausted. */
  method SampleRows(rows: seq<Row>, rowsToSample: Int32) returns (rowSizeSum: int, numColumnsSum: Int32, rowCount: Int32)
    requires rowsToSample > 0
    ensures 0 <= rowCount <= rowsToSample && rowCount <= |rows|
    ensures rowCount == |Sampled(rows, rowsToSample)|
    ensures rowSizeSum == SampleBytes(rows[..rowCount])
    ensures numColumnsSum == Wrap32(SampleColumns(rows[..rowCount]))
  {
    rowSizeSum, numColumnsSum, rowCount := 0, 0, 0;
    while rowCount < rowsToSample
      invariant 0 <= rowCount <= rowsToSample && rowCount <= |rows|
      invariant rowSizeSum == SampleBytes(rows[..rowCount])
      invariant numColumnsSum == Wrap32(SampleColumns(rows[..rowCount]))
    {
      if rowCount == |rows| {
        break;  // the scanner returned null
      }
      var row := rows[rowCount];
      assert rows[..rowCount + 1][..rowCount] == rows[..rowCount];
      Wrap32Add(SampleColumns(rows[..rowCount]), row.size);
      numColumnsSum := Wrap32(numColumnsSum + row.size);
      var c := 0;
      var cellSum := 0;
      while c < |row.cellSizes|
        invariant 0 <= c <= |row.cellSizes|
        invariant cellSum == CellBytes(row.cellSizes[..c])
      {
        assert row.cellSizes[..c + 1][..c] == row.cellSizes[..c];
        cellSum := cellSum + row.cellSizes[c];
        c := c + 1;
      }
      assert row.cellSizes[..c] == row.cellSizes;
      rowSizeSum := rowSizeSum + cellSum;
      rowCount := rowCount + 1;
    }
  }

  // ---------------------------------------------------------------------
  // Size map

  /** A region's recorded size: its 32-bit MB total, at least 1, in bytes. */
  function RegionBytes(load: RegionLoad): (bytes: int)
    ensures bytes >= MIB && bytes % MIB == 0
  {
    var mb := Wrap32(load.memStoreSizeMB + load.storefileSizeMB);
    (if mb > 0 then mb else 1) * MIB
  }

  /** All region loads of all servers, in report order. */
  function AllLoads(servers: seq<seq<RegionLoad>>): seq<RegionLoad>
  {
    if servers == [] then [] else AllLoads(servers[..|servers| - 1]) + servers[|servers| - 1]
  }

  /** The size map after `put`ting every load of this table's regions, in order (a later load overwrites). */
  function SizeMapOf(loads: seq<RegionLoad>, tableRegions: set<Key>): map<Key, int>
  {
    if loads == [] then map[]
    else
      var m := SizeMapOf(loads[..|loads| - 1], tableRegions);
      var l := loads[|loads| - 1];
      if l.name in tableRegions then m[l.name := RegionBytes(l)] else m
  }

  lemma SizeMapSnoc(loads: seq<RegionLoad>, load: RegionLoad, tableRegions: set<Key>)
    ensures SizeMapOf(loads + [load], tableRegions)
         == if load.name in tableRegions then SizeMapOf(loads, tableRegions)[load.name := RegionBytes(load)]
            else SizeMapOf(loads, tableRegions)
  {
    assert (loads + [load])[..|loads|] == loads;
  }

  lemma ConcatSnoc(before: seq<RegionLoad>, loads: seq<RegionLoad>, j: nat)
    requires j < |loads|
    ensures before + loads[..j + 1] == (before + loads[..j]) + [loads[j]]
  {
    assert loads[..j + 1] == loads[..j] + [loads[j]];
  }

  lemma AllLoadsSnoc(servers: seq<seq<RegionLoad>>, i: nat)
    requires i < |servers|
    ensures AllLoads(servers[..i + 1]) == AllLoads(servers[..i]) + servers[i][..|servers[i]|]
  {
    assert servers[..i + 1][..i] == servers[..i];
    assert servers[i][..|servers[i]|] == servers[i];
  }

  /** The nested loop over servers and their region loads that fills the size map. */
  method BuildSizeMap(servers: seq<seq<RegionLoad>>, tableRegions: set<Key>) returns (sizeMap: map<Key, int>)
    ensures sizeMap == SizeMapOf(AllLoads(servers), tableRegions)
  {
    sizeMap := map[];
    for i := 0 to |servers|
      invariant sizeMap == SizeMapOf(AllLoads(servers[..i]), tableRegions)
    {
      var loads := servers[i];
      ghost var before := AllLoads(servers[..i]);
      assert before + loads[..0] == before;
      for j := 0 to |loads|
        invariant sizeMap == SizeMapOf(before + loads[..j], tableRegions)
      {
        var load := loads[j];
        SizeMapSnoc(before + loads[..j], load, tableRegions);
        ConcatSnoc(before, loads, j);
        if load.name in tableRegions {
          sizeMap := sizeMap[load.name := RegionBytes(load)];
        }
      }
      AllLoadsSnoc(servers, i);
    }
    assert servers[..|servers|] == servers;
  }

  /** The size map the calculator ends with: none when disabled or when the cluster status is unavailable. */
  function SizeMapOption(enabled: bool, tableRegions: set<Key>, clusterStatus: Option<seq<seq<RegionLoad>>>): Option<map<Key, int>>
  {
    if !enabled || clusterStatus.None? then None
    else Some(SizeMapOf(AllLoads(clusterStatus.value), tableRegions))
  }

  /**
   * The constructor. `rows` is what the scanner over the scan's key range would
   * return, `clusterStatus` is None when the cluster-status query threw or
   * returned null, and `tableRegions` names the table's regions.
   */
  method Compute(rows: seq<Row>, configured: Option<Int32>, enabled: bool, tableRegions: set<Key>,
                 clusterStatus: Option<seq<seq<RegionLoad>>>)
    returns (stats: TableStats)
    ensures var sample := Sampled(rows, RowsToSample(configured));
      stats.avgRowSizeInBytes == AvgRowSize(sample) && stats.colsPerRow == AvgColumns(sample)
    ensures stats.sizeMap == SizeMapOption(enabled, tableRegions, clusterStatus)
  {
    var avgRowSizeInBytes: Int32 := 1;
    var colsPerRow: Int32 := 1;
    var rowsToSample := RowsToSample(configured);
    if rowsToSample > 0 {
      var rowSizeSum, numColumnsSum, rowCount := SampleRows(rows, rowsToSample);
      assert rows[..rowCount] == Sampled(rows, rowsToSample);
      if rowCount > 0 {
        avgRowSizeInBytes := Wrap32(rowSizeSum / rowCount);
        colsPerRow := TruncDiv(numColumnsSum, rowCount);
      }
    }
    if !enabled || clusterStatus.None? {
      stats := TableStats(None, avgRowSizeInBytes, colsPerRow);
    } else {
      var sizeMap := BuildSizeMap(clusterStatus.value, tableRegions);
      stats := TableStats(Some(sizeMap), avgRowSizeInBytes, colsPerRow);
    }
  }

  // ---------------------------------------------------------------------
  // Properties

  /** Without a row read, both averages keep their initial value 1. */
  lemma NoSampleKeepsDefaults(rows: seq<Row>, rowsToSample: int)
    requires rowsToSample <= 0 || rows == []
    ensures AvgRowSize(Sampled(rows, rowsToSample)) == 1
    ensures AvgColumns(Sampled(rows, rowsToSample)) == 1
  {
  }

  lemma QuotientBounds(total: nat, count: nat)
    requires count > 0
    ensures (total / count) * count <= total < (total / count + 1) * count
  {
    var q, r := total / count, total % count;
    assert total == count * q + r && 0 <= r < count;
    assert (q + 1) * count == q * count + count;
  }

  /**
   * When the sampled rows' average fits a Java int, `avgRowSizeInBytes` is the
   * floor of total cell bytes over the rows read.
   */
  lemma AvgRowSizeIsFloorMean(sample: seq<Row>)
    requires sample != []
    requires SampleBytes(sample) / |sample| < TWO_31
    ensures AvgRowSize(sample) * |sample| <= SampleBytes(sample) < (AvgRowSize(sample) + 1) * |sample|
  {
    DivBounds(SampleBytes(sample), |sample|);
    QuotientBounds(SampleBytes(sample), |sample|);
  }

  /**
   * When the column total fits a Java int, `colsPerRow` is the floor of the
   * total column count over the rows read.
   */
  lemma AvgColumnsIsFloorMean(sample: seq<Row>)
    requires sample != []
    requires SampleColumns(sample) < TWO_31
    ensures AvgColumns(sample) * |sample| <= SampleColumns(sample) < (AvgColumns(sample) + 1) * |sample|
  {
    QuotientBounds(SampleColumns(sample), |sample|);
  }

  /** A region has a size entry exactly when it belongs to the table and some server reported it. */
  lemma {:induction false} SizeMapKeys(loads: seq<RegionLoad>, tableRegions: set<Key>, id: Key)
    ensures id in SizeMapOf(loads, tableRegions)
        <==> id in tableRegions && exists i :: 0 <= i < |loads| && loads[i].name == id
  {
    if loads != [] {
      var init := loads[..|loads| - 1];
      SizeMapKeys(init, tableRegions, id);
      if id in tableRegions && (exists i :: 0 <= i < |loads| && loads[i].name == id) {
        var i :| 0 <= i < |loads| && loads[i].name == id;
        if i < |init| {
          assert init[i].name == id;
        }
      }
      if exists i :: 0 <= i < |init| && init[i].name == id {
        var i :| 0 <= i < |init| && init[i].name == id;
        assert loads[i].name == id;
      }
    }
  }

  /** A recorded size is the size of the last load reported for that region. */
  lemma {:induction false} SizeMapLastLoadWins(loads: seq<RegionLoad>, tableRegions: set<Key>, id: Key) returns (i: nat)
    requires id in SizeMapOf(loads, tableRegions)
    ensures i < |loads| && loads[i].name == id
    ensures SizeMapOf(loads, tableRegions)[id] == RegionBytes(loads[i])
    ensures forall j :: i < j < |loads| ==> loads[j].name != id
  {
    var init := loads[..|loads| - 1];
    var last := loads[|loads| - 1];
    SizeMapKeys(loads, tableRegions, id);
    if last.name == id {
      i := |loads| - 1;
    } else {
      i := SizeMapLastLoadWins(init, tableRegions, id);
    }
  }

  /**
   * What `getRegionSizeInBytes` returns, in terms of the constructor's inputs:
   * the heuristic whenever no map was built (disabled, or cluster status
   * unavailable), 0 for a region outside the table, and at least 1 MiB for a
   * table region that some server reported.
   */
  lemma RegionSizeFromInputs(stats: TableStats, enabled: bool, tableRegions: set<Key>,
                             clusterStatus: Option<seq<seq<RegionLoad>>>, id: Key)
    requires stats.sizeMap == SizeMapOption(enabled, tableRegions, clusterStatus)
    ensures !enabled || clusterStatus.None? ==>
              stats.RegionSizeInBytes(id) == stats.avgRowSizeInBytes * DEFAULT_ROW_COUNT
    ensures enabled && clusterStatus.Some? && id !in tableRegions ==> stats.RegionSizeInBytes(id) == 0
    ensures (enabled && clusterStatus.Some? && id in tableRegions
             && exists i :: 0 <= i < |AllLoads(clusterStatus.value)| && AllLoads(clusterStatus.value)[i].name == id)
            ==> stats.RegionSizeInBytes(id) >= MIB
  {
    if enabled && clusterStatus.Some? {
      var loads := AllLoads(clusterStatus.value);
      SizeMapKeys(loads, tableRegions, id);
      if id in SizeMapOf(loads, tableRegions) {
        var i := SizeMapLastLoadWins(loads, tableRegions, id);
      }
    }
  }
}
