# Bronze ingestion pipeline — a Dafny model

This project models the ingestion core of a small data-lake repository. Spreadsheets and CSV files
dropped into per-cluster directories of a landing zone (`diabetes`, `emagrecimento`, …) are read,
cleaned so that their column types are safe to append, stamped with five audit columns, and written to one
Delta table per cluster (`<cluster>_bronze`). A file watcher drives this for new files. It keeps an
in-flight set so that one path never has two tasks at once. A backlog scan processes the files that
were already present.

The dataframe and storage libraries are not modelled. A table is a sequence of named columns. Each
column has a type tag (`Null`, `Utf8`, `Int`, `Float`, `Bool`, `List`, `Struct`, `Other`) and one
optional cell per row. What the libraries decide is passed in as oracles (total functions held in
datatypes):

- `Reader.Decoders`: the Excel and CSV decoders, per path and separator. `None` means the decoder raised.
- `Normalizer.Engine`: whether a nested column casts to text, how cast values and Python `str()` read,
  and whether `to_pandas()` succeeds.
- `Pipeline.Env`: the above, plus file size, the timestamp, and whether the storage engine accepts a write.

The modules follow the code:

| module | file | models |
|---|---|---|
| `Text`, `Paths` | `text.dfy`, `paths.dfy` | `str.rfind`, `str.lower` (ASCII), `str.replace(x, "")`, `Path.name`, `Path.suffix`, `relative_to` |
| `Frames` | `frames.dfy` | columns, tables, well-formedness, subsequences |
| `Normalizer` | `normalizer.dfy` | `_clean_null_columns` with its last-resort pass |
| `Annotator` | `annotator.dfy` | `_add_metadata` and polars' `with_columns` replace-or-append |
| `Reader` | `reader.dfy` | `supported_formats`, `_read_file`, `_read_excel`, `_read_csv` |
| `Bronze` | `bronze.dfy` | `_save_to_bronze` create-vs-append, `get_bronze_table_stats` keys |
| `Pipeline` | `pipeline.dfy` | `process_file` |
| `Watcher` | `watcher.dfy` | `LandingZoneHandler`, `_detect_cluster`, `_process_file_async`, `scan_existing_files` |

The library's `to_pandas` / `from_pandas` round trip is modelled this way. After `fillna('')`, a kept
column that is not text but had gaps holds a mix of `''` and typed values. Converting it back fails,
so `_clean_null_columns` falls to its last-resort pass. `Normalizer.MainPathConvertsBackIff`
characterises exactly when the main path's `from_pandas` succeeds; the cast and `to_pandas` before it
can also send the table to the last resort (`Normalizer.MainPathOk`).

Behaviours of the code that the model keeps:

- A reader exception, including the CSV fallback's, is caught in `_read_file` and becomes `None`.
  `process_file` then skips the file with a warning.
- Such a skipped file returns normally, so the backlog scan counts it as processed.
- Nested columns are cast by the dataframe library, and that cast may raise. When it does, the whole
  table takes the last-resort path.
- The last-resort pass renders every column with `astype(str)` before `fillna('')`, so a missing cell
  keeps the placeholder pandas prints for it (see "## Findings").
- `df.to_pandas()` in `_save_to_bronze` runs before the table directory is checked or created. When it
  raises, `process_file` raises and no directory appears.
- Nothing guards against a file being both scanned and reported by the watcher. Writes to one cluster
  are not serialised.

## Model

| member | source | states |
|---|---|---|
| `Paths.Suffix` | Delta_lake/processamento/data_processor.py:60 | A non-empty suffix starts with its only dot, has at least one more character, and is a proper ending of the name. It is empty exactly when the last dot is the first or the last character, or there is no dot. |
| `Text.RFind` | Delta_lake/processamento/data_processor.py:60 | The index found holds the character and nothing after it does; -1 means absent. |
| `Paths.RelativeParts` | Delta_lake/processamento/file_watcher.py:58 | `relative_to` succeeds exactly when the root is a prefix of the path, and then the root followed by the result is the path. |
| `Paths.SuffixLower` | Delta_lake/processamento/data_processor.py:60 | Lower-casing the suffix equals taking the suffix of the lower-cased name. |
| `Reader.FormatOf` | Delta_lake/processamento/data_processor.py:22-26 | A reader exists exactly for the extensions `.xlsx`, `.xls`, `.csv`. It is the Excel reader exactly for `.xlsx` and `.xls`, and the CSV reader exactly for `.csv`. |
| `Reader.FormatOfCaseInsensitive` | Delta_lake/processamento/data_processor.py:60-63 | Two names equal up to letter case are dispatched to the same reader. |
| `Reader.ReadFile` | Delta_lake/processamento/data_processor.py:58-69 | An unsupported extension fails with that extension, and only then. `.xlsx`/`.xls` go to the Excel reader and `.csv` to the CSV reader. A reader exception is `None`. |
| `Reader.ReadExcel` | Delta_lake/processamento/data_processor.py:71-85 | The primary decoder's table when it does not raise, else the fallback decoder's result. |
| `Reader.FirstAccepted` | Delta_lake/processamento/data_processor.py:91-104 | The index of the first separator whose parse did not raise and has rows. Every earlier one was rejected. |
| `Reader.ReadCsv` | Delta_lake/processamento/data_processor.py:87-115 | The parse of the first accepted separator in the order `,` `;` tab `\|`, whatever later separators would give. The fallback parser's result only when no separator is accepted. |
| `Reader.ReadCsvLoop` | Delta_lake/processamento/data_processor.py:91-111 | The loop consults a prefix of the separator order and stops at the first accepted parse. All earlier ones were rejected. It reaches the fallback only after rejecting all four. |
| `Normalizer.CastColumn` | Delta_lake/processamento/data_processor.py:137-149 | Null, List and Struct columns become Utf8. Each present cell becomes the library's text rendering of its value, and missing cells stay missing. Names are kept and other columns are untouched. |
| `Normalizer.DropEmpty` | Delta_lake/processamento/data_processor.py:155 | A column is kept exactly when it has a value in some row. Kept columns stay in their original order. |
| `Normalizer.FillColumn` | Delta_lake/processamento/data_processor.py:158 | Every missing cell becomes `""`. Present cells, the name and the type are unchanged. |
| `Normalizer.LastResort` | Delta_lake/processamento/data_processor.py:166-180 | The corrected last resort. It fails exactly when `to_pandas` fails. Otherwise every column is kept in order as a Utf8 column: present values appear as `str()` prints them and missing cells as `""`. |
| `Normalizer.Clean` | Delta_lake/processamento/data_processor.py:130-180 | On success no column is Null/List/Struct, no cell is missing, and the row count is the input's. The names are a subsequence of the input's. On the main path a column survives exactly when it had a value, with its cells filled and cast. Otherwise it succeeds exactly when the last resort's `to_pandas` does. Every name is kept, and each column is that pass's `astype(str)` rendering, placeholders for missing cells included. |
| `Normalizer.MainPathFacts` | Delta_lake/processamento/data_processor.py:137-164 | The main path's output is well-formed. It keeps exactly the input columns with a value, each derived from its input column cell by cell. |
| `Normalizer.MainPathKeeps` | Delta_lake/processamento/data_processor.py:155 | An input column's name is in the main path's output exactly when the column has a value. |
| `Normalizer.MainPathConvertsBackIff` | Delta_lake/processamento/data_processor.py:155-161 | The main path converts back exactly when every kept column with gaps is text after the cast. |
| `Normalizer.LastResortAsWritten` | Delta_lake/processamento/data_processor.py:170-175 | As written, each column is rendered with `astype(str)` before `fillna('')`: present values as `str()` prints them, missing cells as pandas' placeholder. It fails exactly when `to_pandas` fails. |
| `Normalizer.LastResortAsWrittenShape` | Delta_lake/processamento/data_processor.py:170-175 | On a rectangular, uniquely named table the as-written pass keeps every name and yields complete Utf8 columns of the same height. |
| `Normalizer.LastResortAsWrittenKeepsPlaceholder` | Delta_lake/processamento/data_processor.py:173 | As written, a missing cell comes out as a non-empty placeholder, where the corrected pass gives "". |
| `Annotator.WithColumn` | Delta_lake/processamento/data_processor.py:122-128 | A literal column with an existing name replaces that column in place. Otherwise it is appended. Other columns and the height are unchanged, and validity is kept. |
| `Annotator.WithColumns` | Delta_lake/processamento/data_processor.py:122-128 | The input names are a prefix of the output names. The output names are exactly input plus new. Columns whose names are not set stay at their positions, every output column is an input or a new one, and validity is kept. |
| `Annotator.WithColumnsContains` | Delta_lake/processamento/data_processor.py:122-128 | With distinct new names, every new literal column appears in the result unchanged. |
| `Annotator.AddMetadata` | Delta_lake/processamento/data_processor.py:117-128 | Succeeds exactly when cleaning does. The result holds the cleaned columns plus exactly the five audit names, each constant across rows. `_row_count` equals the table's height, which is the height before cleaning. |
| `Bronze.SaveToBronze` | Delta_lake/processamento/data_processor.py:182-214 | If `to_pandas` raises, nothing is written and no directory is created. Otherwise the target is `cluster + "_bronze"`: an append with schema merge exactly when that table exists, a create with overwrite otherwise. The write succeeds exactly when the storage engine accepts it, and the directory exists afterwards. |
| `Bronze.SecondWriteAppends` | Delta_lake/processamento/data_processor.py:193-210 | Once a write for a cluster has got past the conversion, the next one is an append with schema merge, succeeding exactly when the engine accepts it. |
| `Text.RemoveAll` | Delta_lake/processamento/data_processor.py:226 | `str.replace(pat, "")` never lengthens the text, shortens it exactly when the pattern occurs, and leaves it alone when it does not. `Text.RemoveAllAppended` and `Bronze.RecoverTableNameIff` pin the result on table names. |
| `Bronze.RecoverCluster` | Delta_lake/processamento/data_processor.py:226 | The stats key of a directory is its name when the name holds no `_bronze`, and strictly shorter otherwise. |
| `Bronze.RecoverTableNameIff` | Delta_lake/processamento/data_processor.py:226 | `replace("_bronze", "")` on a cluster's table name gives back the cluster exactly when the cluster name does not contain `_bronze`. |
| `Text.RemoveAllAppended` | Delta_lake/processamento/data_processor.py:226 | Appending `_bronze` creates no occurrence across the seam, so the replacement removes it and leaves the rest as before. |
| `Bronze.Stats` | Delta_lake/processamento/data_processor.py:216-236 | The keys are exactly the recovered names of the readable `*_bronze` directories. Unreadable and non-`_bronze` entries are left out. |
| `Bronze.StatsLastWins` | Delta_lake/processamento/data_processor.py:220-232 | Every key holds the row and column counts of the last readable `*_bronze` directory whose recovered name is that key, as repeated dictionary assignment leaves it. |
| `Bronze.StatsListCluster` | Delta_lake/processamento/data_processor.py:220-227 | A cluster whose name avoids `_bronze` is reported under its own name once its table is readable. |
| `Pipeline.ProcessFile` | Delta_lake/processamento/data_processor.py:28-56 | `process_file` changes the bronze directories at most by the cluster's own table. `Pipeline.ProcessFileOutcomes` and `Pipeline.ProcessFileWrites` state each outcome and its effect. |
| `Pipeline.ProcessFileOutcomes` | Delta_lake/processamento/data_processor.py:28-56 | The unsupported-format error is raised exactly when the extension is unsupported. A supported file that is unreadable or empty is skipped. A readable file raises a cleaning failure exactly when `_add_metadata` fails, and a conversion failure exactly when `to_pandas` fails. It reaches the storage engine exactly when both succeed. |
| `Pipeline.ProcessFileWrites` | Delta_lake/processamento/data_processor.py:47-50 | An attempted write carries the annotated table to the cluster's table. It is an append exactly when the table existed, succeeds exactly when the engine accepts it, and leaves the directory in place. No other outcome changes the directories. |
| `Pipeline.Persist` | Delta_lake/processamento/data_processor.py:47-56 | After annotation: a cleaning failure re-raises, a failed conversion raises without touching the directories, and otherwise the write decides the outcome. The result is never a skip or a format error. |
| `Pipeline.ProcessFileSupported` | Delta_lake/processamento/data_processor.py:58-63 | A file with a supported extension never ends in the unsupported-format error. It adds at most its cluster's table. |
| `Watcher.DetectCluster` | Delta_lake/processamento/file_watcher.py:54-62 | The first component below `LANDING_ZONE/data/raw` when the path lies strictly under it, otherwise `"unknown"`. |
| `Watcher.DetectClusterOfWatchedFile` | Delta_lake/processamento/file_watcher.py:93-99 | A file in a watched cluster directory is attributed to that cluster, which is the directory name the scan uses. |
| `Watcher.OnCreated` | Delta_lake/processamento/file_watcher.py:28-52 | Directory events, disallowed extensions and paths already in flight leave the set unchanged and schedule nothing. Any other event inserts the path and schedules exactly one task with the detected cluster. |
| `Watcher.Release` | Delta_lake/processamento/file_watcher.py:79-81 | The path leaves the set and every other member is unchanged. |
| `Watcher.RunTask` | Delta_lake/processamento/file_watcher.py:64-81 | Whatever the pipeline does, a raised exception included, the path leaves the in-flight set and every other path keeps its membership. A task for a supported file never fails on the format. The directories change only by the cluster's table, and only when a write was attempted. |
| `Watcher.WantedIsSupported` | Delta_lake/processamento/file_watcher.py:26 | Every event the handler accepts has an extension the reader dispatches. |
| `Watcher.Apply` | Delta_lake/processamento/file_watcher.py:28-81 | A create step leaves the bronze directories and the log alone. A finish step logs at most one outcome and never removes a bronze directory. `Watcher.CreatePreservesInv` and `Watcher.FinishPreservesInv` state each step's effect. |
| `Watcher.ApplyPreservesInv` | Delta_lake/processamento/file_watcher.py:28-81 | Each create or finish step keeps the in-flight set equal to the paths of running tasks, with no path running twice. |
| `Watcher.CreatePreservesInv` | Delta_lake/processamento/file_watcher.py:40-52 | A create event adds its path to both the set and the running tasks, or changes neither. |
| `Watcher.FinishPreservesInv` | Delta_lake/processamento/file_watcher.py:64-81 | Finishing a task runs `process_file` for it: the log gains that call's outcome and the bronze directories become the call's. Its path leaves the set, and no other running task carries that path. Finishing a task that is not running changes nothing. |
| `Watcher.RemoveTask` | Delta_lake/processamento/file_watcher.py:81 | Removing a finished task from the running list removes exactly its path and keeps the remaining paths distinct. |
| `Watcher.RunPreservesInv` | Delta_lake/processamento/file_watcher.py:28-81 | The in-flight invariant holds after any sequence of events and task completions. |
| `Watcher.ApplyPreservesSound` | Delta_lake/processamento/file_watcher.py:34-81 | Each step keeps every running task on a file whose extension the handler accepts, and the outcome it logs for a finished task is never a format error, because the handler's extension list equals the reader's. |
| `Watcher.RunPreservesSound` | Delta_lake/processamento/file_watcher.py:28-81 | After any sequence of events and task completions, no logged outcome is a format error. |
| `Watcher.DuplicateCreateSchedulesOnce` | Delta_lake/processamento/file_watcher.py:40-44 | Two create events for a path before its task finishes schedule exactly one task. |
| `Watcher.FinishedPathIsAcceptedAgain` | Delta_lake/processamento/file_watcher.py:79-81 | After its task has run, with the outcome recorded, a new create event for the path is accepted again. |
| `Watcher.ScanDirProcessesEligible` | Delta_lake/processamento/file_watcher.py:149-156 | The scan processes exactly the regular files with an allowed extension, in listing order, each with the directory's cluster, continuing past failures. |
| `Watcher.ScanDirOutcomes` | Delta_lake/processamento/file_watcher.py:149-153 | Scanned files never hit the unsupported-format error. Only the cluster's own table can appear. |
| `Watcher.ScanDirStep` | Delta_lake/processamento/file_watcher.py:149-154 | Each listing entry extends the scan by itself when eligible and by nothing otherwise. The count grows only when processing did not raise. |
| `Watcher.ScanClusterDir` | Delta_lake/processamento/file_watcher.py:149-156 | The loop's count equals the number of scanned files whose processing did not raise, and its catalog equals the scan's. |
| `Watcher.ScanExistingFiles` | Delta_lake/processamento/file_watcher.py:129-158 | Over the five cluster directories, skipping missing ones, the count equals the files processed without an exception and is at most the number of files processed. The method raises exactly when the scan does, leaving the bronze directories as the scan left them. |
| `Watcher.ScanDir` | Delta_lake/processamento/file_watcher.py:149-156 | The scan of one cluster directory in listing order. It has no contract of its own; `Watcher.ScanDirProcessesEligible`, `Watcher.ScanDirOutcomes` and `Watcher.ScanDirStep` describe it. |
| `Watcher.ScanClusters` | Delta_lake/processamento/file_watcher.py:135-156 | The scan over the cluster paths in order: skip a missing one, raise at one that cannot be listed, scan the rest. It has no contract of its own; `Watcher.ScanClustersRaises` and `Watcher.ScanClustersAbortedPrefix` describe it. |
| `Watcher.ScanClustersRaises` | Delta_lake/processamento/file_watcher.py:143-149 | The scan raises exactly when some existing cluster path cannot be listed. At the first such cluster it stops, keeping the work done on the clusters before it. |
| `Watcher.ScanClustersAbortedPrefix` | Delta_lake/processamento/file_watcher.py:135-149 | Once the scan has raised, the clusters after that point change nothing. |

## Findings

| source | as written | input that shows it | evidently intended | confidence | as-written member | corrected member |
|---|---|---|---|---|---|---|
| Delta_lake/processamento/data_processor.py:173 | `astype(str).fillna('')`: `astype(str)` already prints a missing cell as `"None"` (or `"nan"` for numeric columns), so the fill has nothing left to fill | any table reaching the last resort with a missing cell, e.g. a Utf8 column `["a", null]` | missing cells become `""`, as on the main path | medium (pandas 2.x `astype(str)` behaviour), not executed | `Normalizer.LastResortAsWritten` | `Normalizer.LastResort` |

`Normalizer.Clean` follows the code as written and uses `Normalizer.LastResortAsWritten`. `Normalizer.LastResort` is the corrected pass, and `Normalizer.LastResortAsWrittenKeepsPlaceholder` shows where the two differ.

## Left out

- Watcher.ScanExistingFiles: when the scan raises, the source's `processed_count` is lost with the exception; the method still returns the count reached, and a raise out of `main` before the watcher starts is not modelled beyond the `raised` flag.
- Decoding itself (polars/pandas CSV and Excel parsing, encodings, `ignore_errors`, inference length) is not modelled. The decoders are oracles.
- `write_deltalake` and the Delta transaction log are not modelled: how schema merge unifies types, and atomicity. Only the create-vs-append decision and the engine's accept/refuse verdict are.
- The watchdog `Observer` (schedule, start, stop, join), `asyncio.create_task`, the one-second settle delay and real concurrency are not modelled. The handler is a sequential state machine of create and finish steps.
- `datetime.now()`, `stat().st_size`, `st_mtime` and the float `size_mb` are I/O or floating point. The first two are oracles of `Pipeline.Env`. The last two are not in `Bronze.TableStats`.
- Logging is not modelled. Neither is the unused `file_stem` argument of `_save_to_bronze`.
- Delta_lake/api/main.py, Delta_lake/api/models.py, Delta_lake/scripts/*.py and the `__main__` blocks are drivers outside the pipeline. Delta_lake/config/settings.py enters only as the landing-zone path parameter and the `data/raw` layout.
- Normalizer.Clean: column types other than the cast ones are assumed to survive the pandas round trip. In reality an integer column with nulls comes back as float, and dates may change representation.
- Normalizer.Clean: a float NaN is a present value in polars but a missing one in pandas. The model has no NaN values.
- Normalizer.Clean: the row count is kept even when every column is dropped. Whether the dataframe library keeps a row count for a column-less frame is not modelled.
- Text.Lower: only ASCII letters are folded, where Python's `str.lower` is Unicode-aware.
- PandasMissingText: pandas prints a missing datetime as "NaT" and other missing non-numeric cells as "None". The model writes "None" for every non-numeric type; only the fact that the placeholder is non-empty is used.
- Normalizer.Engine: the text form of a cast or `str()`-printed value is an oracle, not the libraries' exact formatting.
