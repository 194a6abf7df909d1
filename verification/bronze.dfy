/**
 * The bronze layer as the writer sees it: one table directory per cluster,
 * named `<cluster>_bronze`, created on first write and appended to with
 * schema merge afterwards; and the stats query that maps those directories
 * back to cluster names with `replace("_bronze", "")`.
 */
module Bronze {
  import opened Results
  import opened Text
  import opened Frames

  const BronzeSuffix: string := "_bronze"

  /** The table directory of a cluster under the bronze root. */
  function TableName(cluster: string): string
  {
    cluster + BronzeSuffix
  }

  /** The two ways `_save_to_bronze` calls the storage engine. */
  datatype WriteMode =
    | AppendMerge       // mode="append", schema_mode="merge"
    | CreateOverwrite   // mkdir, then mode="overwrite"

  /** The directory names present under the bronze root. */
  type Catalog = set<string>

  /** How `_save_to_bronze` ended: the conversion to pandas raised, or the write was made in a mode and accepted or refused. */
  datatype SaveOutcome = ConversionFailed | Saved(mode: WriteMode) | WriteFailed(mode: WriteMode)

  /**
   * `_save_to_bronze`: convert to pandas first (outside the `try`, before
   * anything touches the directory); then append with schema merge when the
   * cluster's directory exists, otherwise create it and write with overwrite.
   * The directory is created before the write, so it exists afterwards even
   * when the storage engine (`accepts`) refuses the write.
   */
  function SaveToBronze(catalog: Catalog, cluster: string, t: Table, toPandasOk: Table -> bool,
                        accepts: (string, WriteMode, Table) -> bool)
    : (r: (SaveOutcome, Catalog))
    ensures r.0.ConversionFailed? <==> !toPandasOk(t)
    ensures r.0.ConversionFailed? ==> r.1 == catalog
    ensures !r.0.ConversionFailed? ==> (r.0.mode == AppendMerge <==> TableName(cluster) in catalog)
    ensures !r.0.ConversionFailed? ==> (r.0.Saved? <==> accepts(TableName(cluster), r.0.mode, t))
    ensures !r.0.ConversionFailed? ==> r.1 == catalog + {TableName(cluster)}
  {
    if !toPandasOk(t) then (ConversionFailed, catalog)
    else
      var name := TableName(cluster);
      var mode := if name in catalog then AppendMerge else CreateOverwrite;
      var outcome := if accepts(name, mode, t) then Saved(mode) else WriteFailed(mode);
      (outcome, catalog + {name})
  }

  /** After one write attempt for a cluster has got past the conversion, every later write for it is an append. */
  lemma SecondWriteAppends(catalog: Catalog, cluster: string, t1: Table, t2: Table, toPandasOk: Table -> bool,
                           accepts: (string, WriteMode, Table) -> bool)
    requires toPandasOk(t1) && toPandasOk(t2)
    ensures SaveToBronze(SaveToBronze(catalog, cluster, t1, toPandasOk, accepts).1, cluster, t2, toPandasOk, accepts).0
      == if accepts(TableName(cluster), AppendMerge, t2) then Saved(AppendMerge) else WriteFailed(AppendMerge)
  {
  }

  predicate EndsWith(s: string, suffix: string)
  {
    |suffix| <= |s| && s[|s| - |suffix|..] == suffix
  }

  /** `cluster_dir.name.replace("_bronze", "")`. */
  function RecoverCluster(dirName: string): (r: string)
    ensures |r| <= |dirName|
    ensures !Occurs(BronzeSuffix, dirName) ==> r == dirName
    ensures Occurs(BronzeSuffix, dirName) ==> |r| < |dirName|
  {
    RemoveAll(dirName, BronzeSuffix)
  }

  /**
   * The stats key of a cluster's table is the cluster's own name exactly when
   * that name does not itself contain "_bronze": `replace` deletes every
   * occurrence, not only the trailing one.
   */
  lemma RecoverTableNameIff(cluster: string)
    ensures EndsWith(TableName(cluster), BronzeSuffix)
    ensures RecoverCluster(TableName(cluster)) == cluster <==> !Occurs(BronzeSuffix, cluster)
  {
    assert HeadUnique(BronzeSuffix) by {
      forall k | 0 < k < |BronzeSuffix| ensures BronzeSuffix[k] != BronzeSuffix[0] {
      }
    }
    RemoveAllAppended(cluster, BronzeSuffix);
    assert TableName(cluster)[|TableName(cluster)| - |BronzeSuffix|..] == BronzeSuffix;
  }

  datatype DirEntry = DirEntry(name: string, isDir: bool)

  datatype TableStats = TableStats(rows: nat, columns: nat)

  /** The figures `get_bronze_table_stats` keeps for an opened table: `len(df)` and `len(df.columns)`. */
  function StatsOf(t: Table): TableStats
  {
    TableStats(t.height, |t.columns|)
  }

  /** A directory the stats query reports: a `*_bronze` directory whose table can be opened. */
  predicate Reported(d: DirEntry, open: string -> Option<Table>)
  {
    d.isDir && EndsWith(d.name, BronzeSuffix) && open(d.name).Some?
  }

  /** Entry `i` is the last reported directory whose recovered name is `key`. */
  predicate LastReportedFor(entries: seq<DirEntry>, open: string -> Option<Table>, key: string, i: int)
  {
    && 0 <= i < |entries|
    && Reported(entries[i], open)
    && RecoverCluster(entries[i].name) == key
    && forall j :: i < j < |entries| && Reported(entries[j], open) ==> RecoverCluster(entries[j].name) != key
  }

  /**
   * `get_bronze_table_stats` without the I/O figures: for every reported
   * directory, in listing order, the recovered cluster name is bound to the
   * table's row and column counts; a later directory with the same key
   * overwrites an earlier one, and unreadable tables are skipped.
   */
  function Stats(entries: seq<DirEntry>, open: string -> Option<Table>): (m: map<string, TableStats>)
    ensures m.Keys == set i | 0 <= i < |entries| && Reported(entries[i], open) :: RecoverCluster(entries[i].name)
  {
    if |entries| == 0 then map[]
    else
      var init := entries[..|entries| - 1];
      var last := entries[|entries| - 1];
      var m := Stats(init, open);
      assert forall i :: 0 <= i < |init| ==> init[i] == entries[i];
      if Reported(last, open) then m[RecoverCluster(last.name) := StatsOf(open(last.name).value)] else m
  }

  /**
   * Every key holds the figures of the last reported directory that maps to
   * it: the dictionary assignment overwrites earlier directories with the
   * same recovered name.
   */
  lemma {:induction false} StatsLastWins(entries: seq<DirEntry>, open: string -> Option<Table>, k: string)
    ensures k in Stats(entries, open) ==>
      exists i :: LastReportedFor(entries, open, k, i) && Stats(entries, open)[k] == StatsOf(open(entries[i].name).value)
    decreases |entries|
  {
    if |entries| > 0 && k in Stats(entries, open) {
      var n := |entries| - 1;
      var init := entries[..n];
      var last := entries[n];
      var m := Stats(init, open);
      assert Stats(entries, open) == if Reported(last, open) then m[RecoverCluster(last.name) := StatsOf(open(last.name).value)] else m;
      if Reported(last, open) && k == RecoverCluster(last.name) {
        assert LastReportedFor(entries, open, k, n);
      } else {
        assert k in m && Stats(entries, open)[k] == m[k];
        StatsLastWins(init, open, k);
        var i :| LastReportedFor(init, open, k, i) && m[k] == StatsOf(open(init[i].name).value);
        assert entries[i] == init[i];
        forall j | i < j < |entries| && Reported(entries[j], open) ensures RecoverCluster(entries[j].name) != k {
          if j < n {
            assert entries[j] == init[j];
            assert Reported(init[j], open);
            assert RecoverCluster(init[j].name) != k;
          } else {
            assert j == n;
          }
        }
      }
    }
  }

  /** A cluster whose name avoids "_bronze" shows up in the stats under its own name once its table is readable. */
  lemma StatsListCluster(entries: seq<DirEntry>, open: string -> Option<Table>, cluster: string)
    requires !Occurs(BronzeSuffix, cluster)
    requires DirEntry(TableName(cluster), true) in entries
    requires open(TableName(cluster)).Some?
    ensures cluster in Stats(entries, open)
  {
    RecoverTableNameIff(cluster);
    var i :| 0 <= i < |entries| && entries[i] == DirEntry(TableName(cluster), true);
    assert Reported(entries[i], open);
  }
}
