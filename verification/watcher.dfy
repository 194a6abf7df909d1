/**
 * `LandingZoneHandler` and `scan_existing_files`: the event filter, the
 * in-flight set that keeps one task per path, cluster detection from the
 * path, and the sequential backlog scan. Threads, the event loop and the
 * settle delay are replaced by explicit steps.
 */
module Watcher {
  import opened Results
  import opened Paths
  import opened Reader
  import opened Bronze
  import opened Pipeline

  /** `supported_extensions` of the handler (the scan spells out the same set). */
  const HandlerExtensions: set<string> := {".xlsx", ".xls", ".csv"}

  /** The clusters whose directories are watched and scanned, in scan order. */
  const Clusters: seq<string> := ["diabetes", "emagrecimento", "rejuvenescimento", "relacionamento", "renda_extra"]

  /** `LANDING_ZONE / "data" / "raw"`. */
  function RawRoot(landingZone: Path): Path
  {
    landingZone + ["data", "raw"]
  }

  /** `_detect_cluster`: the first component below the raw root, or "unknown". */
  function DetectCluster(p: Path, landingZone: Path): (r: string)
    ensures |RawRoot(landingZone)| < |p| && p[..|RawRoot(landingZone)|] == RawRoot(landingZone) ==>
      r == p[|RawRoot(landingZone)|]
    ensures !(|RawRoot(landingZone)| < |p| && p[..|RawRoot(landingZone)|] == RawRoot(landingZone)) ==>
      r == "unknown"
  {
    match RelativeParts(p, RawRoot(landingZone))
    case None => "unknown"
    case Some(parts) => if |parts| > 0 then parts[0] else "unknown"
  }

  /** A file dropped into a cluster's watched directory is attributed to that cluster, as the scan does. */
  lemma DetectClusterOfWatchedFile(landingZone: Path, cluster: string, fileName: string)
    ensures DetectCluster(RawRoot(landingZone) + [cluster, fileName], landingZone) == cluster
    ensures DetectCluster(RawRoot(landingZone) + [cluster, fileName], landingZone) == Name(RawRoot(landingZone) + [cluster])
  {
    var p := RawRoot(landingZone) + [cluster, fileName];
    assert p[..|RawRoot(landingZone)|] == RawRoot(landingZone);
  }

  datatype FsEvent = FsEvent(path: Path, isDirectory: bool)

  /** A scheduled `_process_file_async(path, cluster)`. */
  datatype Task = Task(path: Path, cluster: string)

  /** The handler's filter: files only, with an allowed lower-cased extension. */
  predicate Wanted(ev: FsEvent)
  {
    !ev.isDirectory && Extension(Name(ev.path)) in HandlerExtensions
  }

  /** `on_created`: the next in-flight set and the task scheduled, if any. */
  function OnCreated(inFlight: set<Path>, ev: FsEvent, landingZone: Path): (r: (set<Path>, Option<Task>))
    ensures !Wanted(ev) ==> r == (inFlight, None)
    ensures ev.path in inFlight ==> r == (inFlight, None)
    ensures Wanted(ev) && ev.path !in inFlight ==>
      r == (inFlight + {ev.path}, Some(Task(ev.path, DetectCluster(ev.path, landingZone))))
  {
    if ev.isDirectory then (inFlight, None)
    else if Extension(Name(ev.path)) !in HandlerExtensions then (inFlight, None)
    else if ev.path in inFlight then (inFlight, None)
    else (inFlight + {ev.path}, Some(Task(ev.path, DetectCluster(ev.path, landingZone))))
  }

  /** The `finally` of `_process_file_async`: `discard` the path. */
  function Release(inFlight: set<Path>, p: Path): (r: set<Path>)
    ensures p !in r
    ensures forall q :: q != p ==> (q in r <==> q in inFlight)
  {
    inFlight - {p}
  }

  /**
   * `_process_file_async`: run the pipeline, then release the path in the
   * `finally`, so the path leaves the in-flight set whatever the outcome,
   * a raised exception included.
   */
  function RunTask(env: Env, catalog: Catalog, inFlight: set<Path>, t: Task): (r: (ProcessResult, Catalog, set<Path>))
    ensures t.path !in r.2
    ensures forall q :: q != t.path ==> (q in r.2 <==> q in inFlight)
    ensures r.0.Skipped? <==> Extension(Name(t.path)) in SupportedExtensions && !Readable(env, t.path)
    ensures Extension(Name(t.path)) in SupportedExtensions ==> !(r.0.Failed? && r.0.error.UnsupportedFormat?)
    ensures WriteAttempted(r.0) ==> r.1 == catalog + {TableName(t.cluster)}
    ensures !WriteAttempted(r.0) ==> r.1 == catalog
  {
    var outcome := ProcessFile(env, catalog, t.path, t.cluster);
    ProcessFileOutcomes(env, catalog, t.path, t.cluster);
    ProcessFileWrites(env, catalog, t.path, t.cluster);
    (outcome.0, outcome.1, Release(inFlight, t.path))
  }

  /** Every event the handler accepts names a file the reader can dispatch. */
  lemma WantedIsSupported(ev: FsEvent)
    requires Wanted(ev)
    ensures FormatOf(Name(ev.path)).Some?
  {
    assert HandlerExtensions == SupportedExtensions;
  }

  // ---------------------------------------------------------------------------
  // The handler as a sequential state machine

  /** What was done with one file: its path, its cluster and the outcome of `process_file`. */
  datatype LogEntry = LogEntry(path: Path, cluster: string, result: ProcessResult)

  /**
   * The in-flight set, the tasks scheduled and not yet finished, the bronze
   * directories, and what each finished task did, in finishing order.
   */
  datatype WatchState = WatchState(inFlight: set<Path>, running: seq<Task>, catalog: Catalog, done: seq<LogEntry>)

  datatype Step = Create(ev: FsEvent) | Finish(index: nat)

  function RunningPaths(running: seq<Task>): set<Path>
  {
    set i | 0 <= i < |running| :: running[i].path
  }

  predicate DistinctPaths(running: seq<Task>)
  {
    forall i, j :: 0 <= i < j < |running| ==> running[i].path != running[j].path
  }

  /** Every running task is for a file the reader can dispatch. */
  predicate TasksSupported(running: seq<Task>)
  {
    forall i :: 0 <= i < |running| ==> Extension(Name(running[i].path)) in SupportedExtensions
  }

  /** No finished task raised the unsupported-format error. */
  predicate NoUnsupported(done: seq<LogEntry>)
  {
    forall k :: 0 <= k < |done| ==> !(done[k].result.Failed? && done[k].result.error.UnsupportedFormat?)
  }

  /** A path is in flight exactly while one task for it is running, and never two. */
  predicate Inv(s: WatchState)
  {
    s.inFlight == RunningPaths(s.running) && DistinctPaths(s.running)
  }

  /** Tasks are only for supported files, so none of the finished ones failed on the format. */
  predicate Sound(s: WatchState)
  {
    TasksSupported(s.running) && NoUnsupported(s.done)
  }

  /** The running tasks once the `k`-th has finished. */
  function Without(running: seq<Task>, k: nat): seq<Task>
    requires k < |running|
  {
    running[..k] + running[k + 1..]
  }

  /** One step: an `on_created` event, or the `index`-th running task running to completion. */
  function Apply(env: Env, s: WatchState, step: Step, landingZone: Path): (r: WatchState)
    ensures step.Create? ==> r.catalog == s.catalog && r.done == s.done
    ensures step.Finish? ==> |r.done| <= |s.done| + 1 && s.catalog <= r.catalog
  {
    match step
    case Create(ev) =>
      var created := OnCreated(s.inFlight, ev, landingZone);
      WatchState(created.0, if created.1.Some? then s.running + [created.1.value] else s.running, s.catalog, s.done)
    case Finish(i) =>
      if i < |s.running| then
        var t := s.running[i];
        var r := RunTask(env, s.catalog, s.inFlight, t);
        WatchState(r.2, Without(s.running, i), r.1, s.done + [LogEntry(t.path, t.cluster, r.0)])
      else s
  }

  /**
   * A create step either adds its path to the in-flight set and one task for
   * it, or changes nothing; the in-flight set stays equal to the running
   * paths, each running once.
   */
  lemma CreatePreservesInv(env: Env, s: WatchState, ev: FsEvent, landingZone: Path)
    requires Inv(s)
    ensures var s' := Apply(env, s, Create(ev), landingZone);
      if Wanted(ev) && ev.path !in s.inFlight then
        s'.inFlight == s.inFlight + {ev.path} && s'.running == s.running + [Task(ev.path, DetectCluster(ev.path, landingZone))]
      else s' == s
    ensures Inv(Apply(env, s, Create(ev), landingZone))
  {
    var s' := Apply(env, s, Create(ev), landingZone);
    if Wanted(ev) && ev.path !in s.inFlight {
      var t := Task(ev.path, DetectCluster(ev.path, landingZone));
      assert s'.running == s.running + [t];
      assert RunningPaths(s'.running) == RunningPaths(s.running) + {ev.path} by {
        forall q | q in RunningPaths(s'.running) ensures q in RunningPaths(s.running) + {ev.path} {
          var i :| 0 <= i < |s'.running| && s'.running[i].path == q;
          if i < |s.running| {
            assert s.running[i].path == q;
          }
        }
        forall q | q in RunningPaths(s.running) ensures q in RunningPaths(s'.running) {
          var i :| 0 <= i < |s.running| && s.running[i].path == q;
          assert s'.running[i].path == q;
        }
        assert s'.running[|s.running|].path == ev.path;
      }
      forall i, j | 0 <= i < j < |s'.running| ensures s'.running[i].path != s'.running[j].path {
        if j == |s.running| {
          assert s.running[i].path in RunningPaths(s.running);
        }
      }
    }
  }

  /** Where each task of the list without its `k`-th element came from. */
  lemma RemoveAtIndex(running: seq<Task>, k: nat)
    requires k < |running|
    ensures |Without(running, k)| == |running| - 1
    ensures forall i :: 0 <= i < |running| - 1 ==> Without(running, k)[i] == running[if i < k then i else i + 1]
  {
    var rest := Without(running, k);
    forall i | 0 <= i < |rest| ensures rest[i] == running[if i < k then i else i + 1] {
      if i < k {
        assert rest[i] == running[..k][i];
      } else {
        assert rest[i] == running[k + 1..][i - k];
      }
    }
  }

  /** Removing the `k`-th running task removes exactly its path and keeps the rest distinct. */
  lemma RemoveTask(running: seq<Task>, k: nat)
    requires k < |running| && DistinctPaths(running)
    ensures RunningPaths(Without(running, k)) == RunningPaths(running) - {running[k].path}
    ensures DistinctPaths(Without(running, k))
  {
    var p := running[k].path;
    var rest := Without(running, k);
    RemoveAtIndex(running, k);
    forall q | q in RunningPaths(rest) ensures q in RunningPaths(running) - {p} {
      var i :| 0 <= i < |rest| && rest[i].path == q;
      var i' := if i < k then i else i + 1;
      assert running[i'].path == q && i' != k;
    }
    forall q | q in RunningPaths(running) - {p} ensures q in RunningPaths(rest) {
      var i :| 0 <= i < |running| && running[i].path == q;
      assert i != k;
      var i' := if i < k then i else i - 1;
      assert rest[i'].path == q;
    }
    forall i, j | 0 <= i < j < |rest| ensures rest[i].path != rest[j].path {
      var i' := if i < k then i else i + 1;
      var j' := if j < k then j else j + 1;
      assert rest[i] == running[i'] && rest[j] == running[j'] && i' < j';
    }
  }

  /** The remaining tasks are still for supported files. */
  lemma RemoveTaskSupported(running: seq<Task>, k: nat)
    requires k < |running| && TasksSupported(running)
    ensures TasksSupported(Without(running, k))
  {
    var rest := Without(running, k);
    RemoveAtIndex(running, k);
    forall i | 0 <= i < |rest| ensures Extension(Name(rest[i].path)) in SupportedExtensions {
      assert rest[i] == running[if i < k then i else i + 1];
    }
  }

  /**
   * A finish step runs the task and removes its path from the in-flight set;
   * no task still running has that path. A finish of no running task changes
   * nothing.
   */
  lemma FinishPreservesInv(env: Env, s: WatchState, k: nat, landingZone: Path)
    requires Inv(s)
    ensures k < |s.running| ==>
      && Apply(env, s, Finish(k), landingZone).inFlight == s.inFlight - {s.running[k].path}
      && s.running[k].path !in RunningPaths(Apply(env, s, Finish(k), landingZone).running)
    ensures k >= |s.running| ==> Apply(env, s, Finish(k), landingZone) == s
    ensures k < |s.running| ==>
      var t := s.running[k];
      var p := ProcessFile(env, s.catalog, t.path, t.cluster);
      && Apply(env, s, Finish(k), landingZone).done == s.done + [LogEntry(t.path, t.cluster, p.0)]
      && Apply(env, s, Finish(k), landingZone).catalog == p.1
    ensures Inv(Apply(env, s, Finish(k), landingZone))
  {
    var s' := Apply(env, s, Finish(k), landingZone);
    if k < |s.running| {
      var t := s.running[k];
      var r := RunTask(env, s.catalog, s.inFlight, t);
      assert s'.running == Without(s.running, k);
      assert s'.inFlight == r.2;
      RemoveTask(s.running, k);
      assert s'.inFlight == s.inFlight - {t.path};
    }
  }

  /** Each step keeps running tasks on supported files, so a finished task's outcome is never a format error. */
  lemma ApplyPreservesSound(env: Env, s: WatchState, step: Step, landingZone: Path)
    requires Sound(s)
    ensures Sound(Apply(env, s, step, landingZone))
  {
    var s' := Apply(env, s, step, landingZone);
    match step
    case Create(ev) =>
      if Wanted(ev) && ev.path !in s.inFlight {
        assert HandlerExtensions == SupportedExtensions;
        assert s'.running == s.running + [Task(ev.path, DetectCluster(ev.path, landingZone))];
      }
    case Finish(k) =>
      if k < |s.running| {
        var t := s.running[k];
        var r := RunTask(env, s.catalog, s.inFlight, t);
        assert s'.running == Without(s.running, k);
        assert s'.done == s.done + [LogEntry(t.path, t.cluster, r.0)];
        RemoveTaskSupported(s.running, k);
        assert Extension(Name(t.path)) in SupportedExtensions;
        assert NoUnsupported(s'.done) by {
          forall m | 0 <= m < |s'.done|
            ensures !(s'.done[m].result.Failed? && s'.done[m].result.error.UnsupportedFormat?)
          {
            if m < |s.done| {
              assert s'.done[m] == s.done[m];
            }
          }
        }
      }
  }

  /** Every step keeps the invariant. */
  lemma ApplyPreservesInv(env: Env, s: WatchState, step: Step, landingZone: Path)
    requires Inv(s)
    ensures Inv(Apply(env, s, step, landingZone))
  {
    match step
    case Create(ev) => CreatePreservesInv(env, s, ev, landingZone);
    case Finish(k) => FinishPreservesInv(env, s, k, landingZone);
  }

  /** The state after a sequence of steps. */
  function Run(env: Env, s: WatchState, steps: seq<Step>, landingZone: Path): WatchState
    decreases |steps|
  {
    if |steps| == 0 then s else Run(env, Apply(env, s, steps[0], landingZone), steps[1..], landingZone)
  }

  /** Whatever events arrive and tasks finish, a path never has two tasks running at once. */
  lemma {:induction false} RunPreservesInv(env: Env, s: WatchState, steps: seq<Step>, landingZone: Path)
    requires Inv(s)
    ensures Inv(Run(env, s, steps, landingZone))
    decreases |steps|
  {
    if |steps| > 0 {
      ApplyPreservesInv(env, s, steps[0], landingZone);
      RunPreservesInv(env, Apply(env, s, steps[0], landingZone), steps[1..], landingZone);
    }
  }

  /** Whatever events arrive and tasks finish, no task ever fails on an unsupported format. */
  lemma {:induction false} RunPreservesSound(env: Env, s: WatchState, steps: seq<Step>, landingZone: Path)
    requires Sound(s)
    ensures Sound(Run(env, s, steps, landingZone))
    decreases |steps|
  {
    if |steps| > 0 {
      ApplyPreservesSound(env, s, steps[0], landingZone);
      RunPreservesSound(env, Apply(env, s, steps[0], landingZone), steps[1..], landingZone);
    }
  }

  /** Two create events for a path before its task finishes schedule exactly one task for it. */
  lemma DuplicateCreateSchedulesOnce(env: Env, s: WatchState, ev: FsEvent, landingZone: Path)
    requires Inv(s)
    requires Wanted(ev) && ev.path !in s.inFlight
    ensures
      var s' := Run(env, s, [Create(ev), Create(ev)], landingZone);
      && s'.running == s.running + [Task(ev.path, DetectCluster(ev.path, landingZone))]
      && s'.inFlight == s.inFlight + {ev.path}
  {
    var s1 := Apply(env, s, Create(ev), landingZone);
    var s2 := Apply(env, s1, Create(ev), landingZone);
    assert [Create(ev), Create(ev)][1..] == [Create(ev)];
    assert Run(env, s, [Create(ev), Create(ev)], landingZone) == Run(env, s1, [Create(ev)], landingZone);
    assert [Create(ev)][1..] == [];
    assert Run(env, s1, [Create(ev)], landingZone) == Run(env, s2, [], landingZone) == s2;
    assert s2 == s1;
  }

  /**
   * Once its task has run, whatever the outcome, a path is accepted again by
   * the next create event, and the outcome is on record.
   */
  lemma FinishedPathIsAcceptedAgain(env: Env, s: WatchState, i: nat, ev: FsEvent, landingZone: Path)
    requires Inv(s)
    requires i < |s.running| && ev.path == s.running[i].path && Wanted(ev)
    ensures
      var s1 := Apply(env, s, Finish(i), landingZone);
      var s' := Apply(env, s1, Create(ev), landingZone);
      && |s1.done| == |s.done| + 1 && s1.done[|s.done|].path == ev.path
      && |s'.running| == |s.running| && ev.path in s'.inFlight
  {
    ApplyPreservesInv(env, s, Finish(i), landingZone);
  }

  // ---------------------------------------------------------------------------
  // The backlog scan

  /** One entry of a directory listing. */
  datatype Entry = Entry(path: Path, isFile: bool)

  /** Entries the scan processes: regular files with an allowed lower-cased extension. */
  predicate Eligible(e: Entry)
  {
    e.isFile && Extension(Name(e.path)) in HandlerExtensions
  }

  /** The paths of the eligible entries, in listing order. */
  function EligiblePaths(entries: seq<Entry>): seq<Path>
  {
    if |entries| == 0 then []
    else if Eligible(entries[|entries| - 1]) then EligiblePaths(entries[..|entries| - 1]) + [entries[|entries| - 1].path]
    else EligiblePaths(entries[..|entries| - 1])
  }

  /** `processed_count` grows only for files whose `process_file` did not raise. */
  function CountProcessed(log: seq<LogEntry>): nat
  {
    if |log| == 0 then 0
    else CountProcessed(log[..|log| - 1]) + (if log[|log| - 1].result.Failed? then 0 else 1)
  }

  function LogPaths(log: seq<LogEntry>): seq<Path>
  {
    seq(|log|, i requires 0 <= i < |log| => log[i].path)
  }

  /** The scan of one cluster directory, file by file in listing order. */
  function ScanDir(env: Env, catalog: Catalog, cluster: string, entries: seq<Entry>): (seq<LogEntry>, Catalog)
    decreases |entries|
  {
    if |entries| == 0 then ([], catalog)
    else
      var prev := ScanDir(env, catalog, cluster, entries[..|entries| - 1]);
      var e := entries[|entries| - 1];
      if Eligible(e) then
        var step := ProcessFile(env, prev.1, e.path, cluster);
        (prev.0 + [LogEntry(e.path, cluster, step.0)], step.1)
      else prev
  }

  /**
   * Exactly the eligible files are processed, in listing order and with the
   * directory's cluster; a failing file does not stop the ones after it.
   */
  lemma {:induction false} ScanDirProcessesEligible(env: Env, catalog: Catalog, cluster: string, entries: seq<Entry>)
    ensures LogPaths(ScanDir(env, catalog, cluster, entries).0) == EligiblePaths(entries)
    ensures forall k :: 0 <= k < |ScanDir(env, catalog, cluster, entries).0| ==>
      ScanDir(env, catalog, cluster, entries).0[k].cluster == cluster
    decreases |entries|
  {
    if |entries| > 0 {
      var init := entries[..|entries| - 1];
      ScanDirProcessesEligible(env, catalog, cluster, init);
      var prev := ScanDir(env, catalog, cluster, init);
      var e := entries[|entries| - 1];
      if Eligible(e) {
        var step := ProcessFile(env, prev.1, e.path, cluster);
        var log := prev.0 + [LogEntry(e.path, cluster, step.0)];
        assert ScanDir(env, catalog, cluster, entries).0 == log;
        assert EligiblePaths(entries) == EligiblePaths(init) + [e.path];
        assert LogPaths(log) == LogPaths(prev.0) + [e.path];
        assert forall k :: 0 <= k < |log| ==> log[k].cluster == cluster;
      } else {
        assert ScanDir(env, catalog, cluster, entries) == prev;
        assert EligiblePaths(entries) == EligiblePaths(init);
      }
    }
  }

  /** The scan never meets an unsupported format, and writes only to its own cluster's table. */
  lemma {:induction false} ScanDirOutcomes(env: Env, catalog: Catalog, cluster: string, entries: seq<Entry>)
    ensures forall k :: 0 <= k < |ScanDir(env, catalog, cluster, entries).0| ==>
      !ScanDir(env, catalog, cluster, entries).0[k].result.Failed? ||
      !ScanDir(env, catalog, cluster, entries).0[k].result.error.UnsupportedFormat?
    ensures catalog <= ScanDir(env, catalog, cluster, entries).1 <= catalog + {TableName(cluster)}
    decreases |entries|
  {
    if |entries| > 0 {
      var init := entries[..|entries| - 1];
      ScanDirOutcomes(env, catalog, cluster, init);
      var prev := ScanDir(env, catalog, cluster, init);
      var e := entries[|entries| - 1];
      if Eligible(e) {
        assert HandlerExtensions == SupportedExtensions;
        ProcessFileSupported(env, prev.1, e.path, cluster);
      }
    }
  }

  /** The directory the scan visits for a cluster. */
  function ClusterDir(landingZone: Path, cluster: string): Path
  {
    RawRoot(landingZone) + [cluster]
  }

  /**
   * What `exists()` and `iterdir()` give for a cluster path: nothing there,
   * a path that exists but cannot be listed (a regular file of that name, or
   * no permission), or the directory's entries.
   */
  datatype Listing = Missing | Unlistable | Listed(entries: seq<Entry>)

  /** The files handled so far, the bronze directories, and whether an exception escaped the scan. */
  datatype ScanResult = ScanResult(log: seq<LogEntry>, catalog: Catalog, raised: bool)

  /**
   * The scan over a list of clusters: a missing directory is skipped, and a
   * path that cannot be listed raises out of the scan, so no later cluster
   * is visited.
   */
  function ScanClusters(env: Env, catalog: Catalog, landingZone: Path, listing: Path -> Listing, clusters: seq<string>)
    : ScanResult
    decreases |clusters|
  {
    if |clusters| == 0 then ScanResult([], catalog, false)
    else
      var prev := ScanClusters(env, catalog, landingZone, listing, clusters[..|clusters| - 1]);
      var dir := ClusterDir(landingZone, clusters[|clusters| - 1]);
      if prev.raised then prev
      else
        match listing(dir)
        case Missing => prev
        case Unlistable => prev.(raised := true)
        case Listed(entries) =>
          var dirScan := ScanDir(env, prev.catalog, Name(dir), entries);
          ScanResult(prev.log + dirScan.0, dirScan.1, false)
  }

  /** Once the scan of a prefix has raised, the clusters after it change nothing. */
  lemma {:induction false} ScanClustersAbortedPrefix(env: Env, catalog: Catalog, landingZone: Path, listing: Path -> Listing,
                                                     clusters: seq<string>, c: nat)
    requires c <= |clusters|
    requires ScanClusters(env, catalog, landingZone, listing, clusters[..c]).raised
    ensures ScanClusters(env, catalog, landingZone, listing, clusters) == ScanClusters(env, catalog, landingZone, listing, clusters[..c])
    decreases |clusters| - c
  {
    if c < |clusters| {
      var init := clusters[..|clusters| - 1];
      assert init[..c] == clusters[..c];
      ScanClustersAbortedPrefix(env, catalog, landingZone, listing, init, c);
    } else {
      assert clusters[..c] == clusters;
    }
  }

  /**
   * The scan raises exactly when some cluster path cannot be listed, and then
   * it has done exactly what it did before the first such cluster.
   */
  lemma {:induction false} ScanClustersRaises(env: Env, catalog: Catalog, landingZone: Path, listing: Path -> Listing,
                                              clusters: seq<string>)
    ensures ScanClusters(env, catalog, landingZone, listing, clusters).raised <==>
      exists c :: 0 <= c < |clusters| && listing(ClusterDir(landingZone, clusters[c])).Unlistable?
    ensures forall c ::
      (0 <= c < |clusters| && listing(ClusterDir(landingZone, clusters[c])).Unlistable? &&
       !ScanClusters(env, catalog, landingZone, listing, clusters[..c]).raised) ==>
        ScanClusters(env, catalog, landingZone, listing, clusters) ==
          ScanClusters(env, catalog, landingZone, listing, clusters[..c]).(raised := true)
    decreases |clusters|
  {
    if |clusters| > 0 {
      var n := |clusters| - 1;
      var init := clusters[..n];
      ScanClustersRaises(env, catalog, landingZone, listing, init);
      forall c | 0 <= c < n ensures init[c] == clusters[c] && init[..c] == clusters[..c] {
      }
      assert clusters[..n] == init;
      forall c | 0 <= c < |clusters| && listing(ClusterDir(landingZone, clusters[c])).Unlistable? &&
        !ScanClusters(env, catalog, landingZone, listing, clusters[..c]).raised
        ensures ScanClusters(env, catalog, landingZone, listing, clusters) ==
          ScanClusters(env, catalog, landingZone, listing, clusters[..c]).(raised := true)
      {
        assert clusters[..c + 1][..c] == clusters[..c];
        assert clusters[..c + 1][c] == clusters[c];
        ScanClustersAbortedPrefix(env, catalog, landingZone, listing, clusters, c + 1);
      }
    }
  }

  /**
   * The inner loop of `scan_existing_files` for one cluster directory: how
   * many files were processed without an exception, and the bronze
   * directories afterwards.
   */
  method ScanClusterDir(env: Env, catalog: Catalog, cluster: string, entries: seq<Entry>)
    returns (processedCount: nat, catalog': Catalog)
    ensures processedCount == CountProcessed(ScanDir(env, catalog, cluster, entries).0)
    ensures catalog' == ScanDir(env, catalog, cluster, entries).1
  {
    processedCount := 0;
    catalog' := catalog;
    var k := 0;
    while k < |entries|
      invariant 0 <= k <= |entries|
      invariant catalog' == ScanDir(env, catalog, cluster, entries[..k]).1
      invariant processedCount == CountProcessed(ScanDir(env, catalog, cluster, entries[..k]).0)
    {
      ScanDirStep(env, catalog, cluster, entries, k);
      ghost var prev := ScanDir(env, catalog, cluster, entries[..k]);
      ghost var next := ScanDir(env, catalog, cluster, entries[..k + 1]);
      var e := entries[k];
      if Eligible(e) {
        var step := ProcessFile(env, catalog', e.path, cluster);
        assert next.1 == step.1;
        catalog' := step.1;
        if !step.0.Failed? {
          processedCount := processedCount + 1;
        }
      } else {
        assert next == prev;
      }
      k := k + 1;
    }
    assert entries[..k] == entries;
  }

  /** One more entry of the listing: the scan so far, then that entry if it is eligible. */
  lemma ScanDirStep(env: Env, catalog: Catalog, cluster: string, entries: seq<Entry>, k: nat)
    requires k < |entries|
    ensures var prev := ScanDir(env, catalog, cluster, entries[..k]);
      ScanDir(env, catalog, cluster, entries[..k + 1]) ==
        if Eligible(entries[k]) then
          var step := ProcessFile(env, prev.1, entries[k].path, cluster);
          (prev.0 + [LogEntry(entries[k].path, cluster, step.0)], step.1)
        else prev
    ensures var prev := ScanDir(env, catalog, cluster, entries[..k]);
      CountProcessed(ScanDir(env, catalog, cluster, entries[..k + 1]).0) ==
        CountProcessed(prev.0) +
        (if Eligible(entries[k]) && !ProcessFile(env, prev.1, entries[k].path, cluster).0.Failed? then 1 else 0)
  {
    assert entries[..k + 1][..k] == entries[..k];
    var prev := ScanDir(env, catalog, cluster, entries[..k]);
    if Eligible(entries[k]) {
      var log := prev.0 + [LogEntry(entries[k].path, cluster, ProcessFile(env, prev.1, entries[k].path, cluster).0)];
      assert log[..|log| - 1] == prev.0;
    }
  }

  /**
   * `scan_existing_files`: the clusters in order, skipping missing
   * directories and stopping with an exception at one that cannot be listed;
   * the number of files processed without an exception, the bronze
   * directories afterwards, and whether the scan raised.
   */
  method ScanExistingFiles(env: Env, catalog: Catalog, landingZone: Path, listing: Path -> Listing)
    returns (processedCount: nat, catalog': Catalog, raised: bool)
    ensures processedCount == CountProcessed(ScanClusters(env, catalog, landingZone, listing, Clusters).log)
    ensures catalog' == ScanClusters(env, catalog, landingZone, listing, Clusters).catalog
    ensures raised == ScanClusters(env, catalog, landingZone, listing, Clusters).raised
    ensures processedCount <= |ScanClusters(env, catalog, landingZone, listing, Clusters).log|
  {
    processedCount := 0;
    catalog' := catalog;
    raised := false;
    var c := 0;
    while c < |Clusters| && !raised
      invariant 0 <= c <= |Clusters|
      invariant catalog' == ScanClusters(env, catalog, landingZone, listing, Clusters[..c]).catalog
      invariant raised == ScanClusters(env, catalog, landingZone, listing, Clusters[..c]).raised
      invariant processedCount == CountProcessed(ScanClusters(env, catalog, landingZone, listing, Clusters[..c]).log)
    {
      var dir := ClusterDir(landingZone, Clusters[c]);
      assert Clusters[..c + 1][..c] == Clusters[..c];
      match listing(dir) {
        case Missing =>
        case Unlistable =>
          raised := true;
        case Listed(entries) =>
          ghost var before := ScanClusters(env, catalog, landingZone, listing, Clusters[..c]);
          var n, next := ScanClusterDir(env, catalog', Name(dir), entries);
          CountProcessedAppend(before.log, ScanDir(env, catalog', Name(dir), entries).0);
          processedCount := processedCount + n;
          catalog' := next;
      }
      c := c + 1;
    }
    if raised {
      ScanClustersAbortedPrefix(env, catalog, landingZone, listing, Clusters, c);
    } else {
      assert Clusters[..c] == Clusters;
    }
    CountProcessedBound(ScanClusters(env, catalog, landingZone, listing, Clusters).log);
  }

  lemma {:induction false} CountProcessedAppend(a: seq<LogEntry>, b: seq<LogEntry>)
    ensures CountProcessed(a + b) == CountProcessed(a) + CountProcessed(b)
    decreases |b|
  {
    if |b| > 0 {
      assert (a + b)[..|a + b| - 1] == a + b[..|b| - 1];
      CountProcessedAppend(a, b[..|b| - 1]);
    } else {
      assert a + b == a;
    }
  }

  lemma {:induction false} CountProcessedBound(log: seq<LogEntry>)
    ensures CountProcessed(log) <= |log|
    decreases |log|
  {
    if |log| > 0 {
      CountProcessedBound(log[..|log| - 1]);
    }
  }
}
