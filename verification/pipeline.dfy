/**
 * `DataProcessor.process_file`: read, skip empty or unreadable input, clean and
 * annotate, then write to the cluster's bronze table. Everything outside the
 * model's reach (decoders, the dataframe libraries, the clock, `stat`, and
 * the storage engine's verdict on a write) comes in through `Env`.
 */
module Pipeline {
  import opened Results
  import opened Paths
  import opened Frames
  import opened Normalizer
  import opened Annotator
  import opened Reader
  import opened Bronze

  datatype Env = Env(
    decoders: Decoders,
    engine: Engine,
    fileSize: Path -> nat,
    clock: Path -> string,
    accepts: (string, WriteMode, Table) -> bool)

  /** Why `process_file` raised. */
  datatype PipelineError =
    | UnsupportedFormat(ext: string)
    | NormalizationFailed
    | ConversionFailure
    | WriteFailure(mode: WriteMode)

  /** How one call of `process_file` ended: a write, a logged skip, or an exception. */
  datatype ProcessResult = Written(mode: WriteMode) | Skipped | Failed(error: PipelineError)

  /** The reader produced something worth writing: no exception and at least one row. */
  predicate Readable(env: Env, p: Path)
  {
    var read := ReadFile(env.decoders, p);
    read.Success? && read.value.Some? && read.value.value.height > 0
  }

  /** `_add_metadata` applied to what the reader produced. */
  function Annotated(env: Env, p: Path, cluster: string): Result<Table, NormalizationError>
    requires Readable(env, p)
  {
    AddMetadata(env.engine, ReadFile(env.decoders, p).value.value, Name(p), cluster, env.clock(p), env.fileSize(p))
  }

  /** The storage engine was called: the outcome is a write or a refused write. */
  predicate WriteAttempted(res: ProcessResult)
  {
    res.Written? || (res.Failed? && res.error.WriteFailure?)
  }

  /** The mode of an attempted write. */
  function ModeOf(res: ProcessResult): WriteMode
    requires WriteAttempted(res)
  {
    if res.Written? then res.mode else res.error.mode
  }

  /** What `process_file` does once `_add_metadata` has returned or raised: save the table, or re-raise. */
  function Persist(env: Env, catalog: Catalog, cluster: string, annotated: Result<Table, NormalizationError>)
    : (r: (ProcessResult, Catalog))
    ensures r.0 == Failed(NormalizationFailed) <==> annotated.Failure?
    ensures r.0 == Failed(ConversionFailure) <==> annotated.Success? && !env.engine.toPandasOk(annotated.value)
    ensures WriteAttempted(r.0) <==> annotated.Success? && env.engine.toPandasOk(annotated.value)
    ensures !r.0.Skipped? && !(r.0.Failed? && r.0.error.UnsupportedFormat?)
    ensures WriteAttempted(r.0) ==>
      && (ModeOf(r.0) == AppendMerge <==> TableName(cluster) in catalog)
      && (r.0.Written? <==> env.accepts(TableName(cluster), ModeOf(r.0), annotated.value))
      && r.1 == catalog + {TableName(cluster)}
    ensures !WriteAttempted(r.0) ==> r.1 == catalog
  {
    match annotated
    case Failure(_) => (Failed(NormalizationFailed), catalog)
    case Success(t) =>
      var save := SaveToBronze(catalog, cluster, t, env.engine.toPandasOk, env.accepts);
      match save.0
      case ConversionFailed => (Failed(ConversionFailure), save.1)
      case Saved(mode) => (Written(mode), save.1)
      case WriteFailed(mode) => (Failed(WriteFailure(mode)), save.1)
  }

  /** `process_file`: the outcome and the bronze directories afterwards. */
  function ProcessFile(env: Env, catalog: Catalog, p: Path, cluster: string): (r: (ProcessResult, Catalog))
    ensures catalog <= r.1 <= catalog + {TableName(cluster)}
  {
    match ReadFile(env.decoders, p)
    case Failure(ext) => (Failed(UnsupportedFormat(ext)), catalog)
    case Success(read) =>
      if read.None? || read.value.height == 0 then (Skipped, catalog)
      else Persist(env, catalog, cluster, Annotated(env, p, cluster))
  }

  /**
   * When `process_file` raises and when it returns: an unsupported extension
   * raises before anything is read; an unreadable or empty file is skipped;
   * a readable file raises exactly when cleaning fails, the conversion to
   * pandas fails, or the storage engine refuses the write.
   */
  lemma ProcessFileOutcomes(env: Env, catalog: Catalog, p: Path, cluster: string)
    ensures var res := ProcessFile(env, catalog, p, cluster).0;
      res == Failed(UnsupportedFormat(Extension(Name(p)))) <==> Extension(Name(p)) !in SupportedExtensions
    ensures var res := ProcessFile(env, catalog, p, cluster).0;
      res.Skipped? <==> Extension(Name(p)) in SupportedExtensions && !Readable(env, p)
    ensures var res := ProcessFile(env, catalog, p, cluster).0;
      res == Failed(NormalizationFailed) <==> Readable(env, p) && Annotated(env, p, cluster).Failure?
    ensures var res := ProcessFile(env, catalog, p, cluster).0;
      res == Failed(ConversionFailure) <==>
        Readable(env, p) && Annotated(env, p, cluster).Success? && !env.engine.toPandasOk(Annotated(env, p, cluster).value)
    ensures var res := ProcessFile(env, catalog, p, cluster).0;
      WriteAttempted(res) <==>
        Readable(env, p) && Annotated(env, p, cluster).Success? && env.engine.toPandasOk(Annotated(env, p, cluster).value)
  {
    if Readable(env, p) {
      assert ProcessFile(env, catalog, p, cluster) == Persist(env, catalog, cluster, Annotated(env, p, cluster));
    }
  }

  /**
   * A write attempted by `process_file` goes to the cluster's table with the
   * annotated table, appends exactly when the table directory existed, and
   * succeeds exactly when the storage engine accepts it; the directory exists
   * afterwards. Any other outcome leaves the directories as they were.
   */
  lemma ProcessFileWrites(env: Env, catalog: Catalog, p: Path, cluster: string)
    ensures var (res, catalog') := ProcessFile(env, catalog, p, cluster);
      WriteAttempted(res) ==>
        && Readable(env, p) && Annotated(env, p, cluster).Success?
        && (ModeOf(res) == AppendMerge <==> TableName(cluster) in catalog)
        && (res.Written? <==> env.accepts(TableName(cluster), ModeOf(res), Annotated(env, p, cluster).value))
        && catalog' == catalog + {TableName(cluster)}
    ensures var (res, catalog') := ProcessFile(env, catalog, p, cluster);
      !WriteAttempted(res) ==> catalog' == catalog
  {
    if Readable(env, p) {
      assert ProcessFile(env, catalog, p, cluster) == Persist(env, catalog, cluster, Annotated(env, p, cluster));
    }
  }

  /** A file with a supported extension never raises the unsupported-format error, and at most adds its cluster's table. */
  lemma ProcessFileSupported(env: Env, catalog: Catalog, p: Path, cluster: string)
    requires Extension(Name(p)) in SupportedExtensions
    ensures !ProcessFile(env, catalog, p, cluster).0.Failed? || !ProcessFile(env, catalog, p, cluster).0.error.UnsupportedFormat?
    ensures catalog <= ProcessFile(env, catalog, p, cluster).1 <= catalog + {TableName(cluster)}
  {
    ProcessFileOutcomes(env, catalog, p, cluster);
    ProcessFileWrites(env, catalog, p, cluster);
  }
}
