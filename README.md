# PaletteInsightAgent core, modelled in Dafny

PaletteInsightAgent is a monitoring agent that runs on Tableau Server
machines. Timer callbacks poll performance counters, logs, thread
information and the Tableau repository. Each callback goes through a
skip-if-busy lock guard. The results are serialised into data files in a
local buffer folder. An upload pass then:

- sends the buffered files table by table to the output;
- moves each file to `processed/` or `errors/` by its outcome;
- deletes processed files older than a time-to-live;
- evicts the oldest stored files, down to half of a storage limit, when the buffer outgrows that limit.

This project models that core and proves what it guarantees:

- `file_uploader.dfy` models the buffer and upload pipeline, with:
  - `file_names.dfy` for file and table names;
  - `file_system.dfy` for the disk as a map from path to content and creation time, with a `Disk` object the pipeline's methods update in place;
  - `strings.dfy` for `Split`, `Distinct` and friends.
- `file_uploader_proofs.dfy` and `storage_limit_proofs.dfy` prove what the pipeline guarantees:
  - where files end up after a move;
  - what the TTL sweep deletes;
  - which prefix of the oldest-first list the eviction deletes.
- `beat_schedule.dfy` models the beat-aligned timer start.
- `repo_nodes.dfy` decides which machine polls the Tableau repository.
- `agent.dfy` holds:
  - the lock guard;
  - the upload callback;
  - the repository-poll gating;
  - `IsRunning`.
- `counter_sampler.dfy` models the counter-samples table, the rows of one sampling pass and the Oracle-safe column names.
- `options.dfy` and `db_connection_info.dfy` model the option and connection validators and the lazily created options instance.

Conventions of the model:

- Paths use `/` as the only separator. A directory path ends with `/`. `Path.Combine` is concatenation.
- A file held open by another process is in the disk's `locked` set. Deleting or moving it fails, as `File.Delete` and `File.Move` then throw.
- Foreign calls are parameters whose answers are values, with `None` where the call throws. These are DNS, the host name, the loopback test, the recovery-mode query, the output sink, `string.GetHashCode` and counter sampling.
- Clock readings are parameters too: `now` and `nowTs` are seconds, and `millisecond` is the millisecond of the current second.

## Model

| member | source | states |
|---|---|---|
| FileNames.GetFileName | PaletteInsightAgent/Output/FileUploader.cs:251-259 | the result has no '/', is a suffix of the input, and is preceded by a '/' unless it is the whole input; without '/' it is the input itself |
| FileNames.GetTableName | PaletteInsightAgent/Output/FileUploader.cs:264-277 | without '-' in the file name the result is ""; otherwise it has no '-' and the file name starts with it followed by '-' |
| FileNames.TableNameOfPrefixed | PaletteInsightAgent/Output/FileUploader.cs:264-277 | a file name that starts with a dash-free `table + "-"` has table name `table` |
| FileNames.PendingTableNames | PaletteInsightAgent/Output/FileUploader.cs:153-159 | the names are distinct, and `t` is one of them iff `t` is non-empty, dash-free, and some file name starts with `t + "-"` |
| FileUploader.GetPendingTables | PaletteInsightAgent/Output/FileUploader.cs:151-160 | None exactly when the folder is missing; otherwise distinct names, each the non-empty text before the first '-' of a listed file's name, and every such text included |
| FileUploader.GetFilesOfTable | PaletteInsightAgent/Output/FileUploader.cs:207-213 | None exactly when the folder is missing; every returned path is a file of the folder whose name starts with `table + "-"`, ends with the extension and has no in-progress marker; every such listed file is returned |
| FileUploader.FirstTableName | PaletteInsightAgent/Output/FileUploader.cs:233-242 | the table chosen is dash-free and, when not "", the table name of some listed data file |
| FileUploader.GetFilesOfSameTable | PaletteInsightAgent/Output/FileUploader.cs:231-248 | None exactly when the folder is missing; an empty list when the first data file gives no table name; otherwise exactly the listed ready files of that table, none in progress, all sharing its non-empty name |
| FileUploader.MoveToFolder | PaletteInsightAgent/Output/FileUploader.cs:286-322 | the disk afterwards is `AfterMoveToFolder`: each file in turn, a failure on one not stopping the rest |
| FileUploaderProofs.MoveToSelfUntouched | PaletteInsightAgent/Output/FileUploader.cs:300-306 | a file whose target is itself is left as it is |
| FileUploaderProofs.MoveOneDelivers | PaletteInsightAgent/Output/FileUploader.cs:308-314 | a present, free file ends up at its target with its content, the source gone, and any earlier target content discarded |
| FileUploaderProofs.MoveOneFailedMoveLosesTarget | PaletteInsightAgent/Output/FileUploader.cs:308-320 | when the source is missing or held open, the existing target is still deleted and nothing is moved |
| FileUploaderProofs.MoveToFolderFrame | PaletteInsightAgent/Output/FileUploader.cs:286-322 | a path that is neither a listed file nor a target keeps its presence and content |
| FileUploaderProofs.MoveToFolderDelivers | PaletteInsightAgent/Output/FileUploader.cs:286-322 | for files with distinct names whose targets are not themselves listed or held open, every free listed file ends at its target with its content and every held-open one stays |
| FileUploader.DoUpload | PaletteInsightAgent/Output/FileUploader.cs:167-199 | the disk afterwards is `AfterDoUpload`: unchanged when the data folder is missing or a write throws, else written files moved to `processed/` and failed ones to `errors/` |
| FileUploaderProofs.DoUploadPlacesFiles | PaletteInsightAgent/Output/FileUploader.cs:167-199 | every successfully written file is delivered to `processed/` and every failed file to `errors/` |
| FileUploaderProofs.ProcessedAndErrorsApart | PaletteInsightAgent/Output/FileUploader.cs:193-199 | no target in `processed/` coincides with a target in `errors/` |
| FileUploader.ExpiredFiles | PaletteInsightAgent/Output/FileUploader.cs:70-73 | a path is selected iff it is listed in the folder and was created strictly before `now - ttl` |
| FileUploader.DeleteOldFiles | PaletteInsightAgent/Output/FileUploader.cs:62-75 | the disk and outcome afterwards are `AfterDeleteOldFiles` |
| FileUploaderProofs.DeleteOldFilesNoFolder | PaletteInsightAgent/Output/FileUploader.cs:64-68 | a missing folder leaves the disk unchanged and the pass going |
| FileUploaderProofs.DeleteOldFilesExact | PaletteInsightAgent/Output/FileUploader.cs:62-75 | when no expired file is held open, the sweep completes and deletes exactly the files created strictly before `now - ttl` |
| FileUploaderProofs.DeleteOldFilesFails | PaletteInsightAgent/Output/FileUploader.cs:70-74 | one expired file held open makes the sweep throw, which ends the pass |
| FileUploaderProofs.DeleteEachStopsAtLocked | PaletteInsightAgent/Output/FileUploader.cs:73-74 | the sweep deletes the files before the first held-open one and none after it |
| FileUploader.SortByCreation | PaletteInsightAgent/Output/FileUploader.cs:147 | the result is sorted by creation time, is a permutation of the input, and is stable: for every creation time the files created then appear in their input order |
| FileUploader.CollectStoredFiles | PaletteInsightAgent/Output/FileUploader.cs:138-149 | oldest first, a permutation of the files of the existing `processed/` then `errors/` folders, with files of equal creation time in listing order |
| StorageLimitProofs.StoredFileLocation | PaletteInsightAgent/Output/FileUploader.cs:142-145 | every stored file lies in `processed/` or `errors/` |
| StorageLimitProofs.RootFilesNeverEvicted | PaletteInsightAgent/Output/FileUploader.cs:138-149 | a file directly in the data folder survives the eviction with its content |
| FileUploader.HalfOf | PaletteInsightAgent/Output/FileUploader.cs:119 | C# `long` division by 2: twice the result falls short of a non-negative input by 0 or 1 and exceeds a negative one by 0 or 1, so it truncates toward zero |
| FileUploader.ApplyStorageLimit | PaletteInsightAgent/Output/FileUploader.cs:86-131 | the disk afterwards is `AfterApplyStorageLimit`: sum the sizes, stop when the limit exceeds the total, else evict oldest first |
| FileUploader.DeleteOldestFirst | PaletteInsightAgent/Output/FileUploader.cs:104-130 | the loop's disk afterwards is `Evict` of the sorted list, the running total and half the limit |
| StorageLimitProofs.StorageLimitBoundary | PaletteInsightAgent/Output/FileUploader.cs:96-100 | a limit above the total changes nothing, and a limit equal to the total still deletes the oldest file |
| StorageLimitProofs.EvictCount | PaletteInsightAgent/Output/FileUploader.cs:104-130 | the length of the shortest non-empty oldest-first prefix that brings the total to at most the threshold, or all files |
| StorageLimitProofs.EvictDeletesShortestPrefix | PaletteInsightAgent/Output/FileUploader.cs:104-130 | with no delete failing, eviction deletes exactly that shortest prefix |
| StorageLimitProofs.EvictPassesOverBlocked | PaletteInsightAgent/Output/FileUploader.cs:106-129 | a failed delete neither lowers the total nor stops the loop: eviction equals eviction over the deletable files alone |
| StorageLimitProofs.EvictOnlyDeletes | PaletteInsightAgent/Output/FileUploader.cs:104-130 | eviction only removes files, only files of the list, and changes no content |
| StorageLimitProofs.StorageLimitExample | PaletteInsightAgent/Output/FileUploader.cs:77-131 | 10+20+30+40 MB with a 50 MB limit deletes all four; with a 100 MB limit it stops after three |
| StorageLimitProofs.StorageLimitExampleOnDisk | PaletteInsightAgent/Output/FileUploader.cs:86-131 | on a disk whose stored files are those four and where nothing is held open, `ApplyStorageLimit` with 50 MB removes all four files and with 100 MB the three oldest, and leaves every other file as it was |
| FileUploader.Start | PaletteInsightAgent/Output/FileUploader.cs:53-60 | upload, TTL sweep of `processed/`, then eviction with the limit converted from MB to bytes; a throwing sweep ends the pass |
| BeatSchedule.CsRem | PaletteInsightAgent/PaletteInsightAgent.cs:586 | C# `%`: the remainder has the sign of the dividend and differs from it by a multiple of the divisor |
| BeatSchedule.GetNextTimerBeat | PaletteInsightAgent/PaletteInsightAgent.cs:583-593 | the wait lies in `[0, pollInterval)` after the epoch, `nowTs + wait` is a multiple of the interval, and the wait is 0 iff `nowTs` is one |
| BeatSchedule.CalculateDueTime | PaletteInsightAgent/PaletteInsightAgent.cs:304-320 | the due time ends on a whole second, and it is 0 exactly when the current instant is on a beat to the millisecond |
| BeatSchedule.DueTimeRange | PaletteInsightAgent/PaletteInsightAgent.cs:304-320 | the due time lies in `[0, pollInterval * 1000)` |
| BeatSchedule.DueTimeOnBeat | PaletteInsightAgent/PaletteInsightAgent.cs:297-320 | the current instant plus the due time, in milliseconds, is a multiple of `pollInterval * 1000` |
| BeatSchedule.DueTimeIsNextBeat | PaletteInsightAgent/PaletteInsightAgent.cs:297-320 | no shorter non-negative wait lands on a beat |
| BeatSchedule.DueTimeZero | PaletteInsightAgent/PaletteInsightAgent.cs:309-316 | the due time is 0 iff `nowTs` is a multiple of the interval and the millisecond is 0 |
| BeatSchedule.JustMissedBeat | PaletteInsightAgent/PaletteInsightAgent.cs:309-319 | just after a beat the wait is a full interval less the elapsed milliseconds |
| RepoNodes.Nodes | PaletteInsightAgent/PaletteInsightAgent.cs:415-426 | one name per set `PgHost0`/`PgHost1`, `PgHost0` first and `PgHost1` last, and the connection host (when set) only when neither is set; so at most two names |
| RepoNodes.GetTableauRepoNodes | PaletteInsightAgent/PaletteInsightAgent.cs:403-430 | no workgroup gives an empty list; otherwise the list is `Nodes` of the workgroup |
| RepoNodes.MatchesLocal | PaletteInsightAgent/PaletteInsightAgent.cs:449-466 | true iff some address of the node is a loopback address or one of the local addresses |
| RepoNodes.IsTableauRepoNode | PaletteInsightAgent/PaletteInsightAgent.cs:432-476 | true iff some listed node designates this machine; a node whose lookup throws is skipped, and an empty list gives false |
| RepoNodes.IsTarget | PaletteInsightAgent/PaletteInsightAgent.cs:492-511 | (passive ∧ prefer passive) ∨ (active ∧ prefer active) ∨ (active ∧ prefer passive ∧ fewer than two nodes) |
| RepoNodes.SoleNodeDecision | PaletteInsightAgent/PaletteInsightAgent.cs:493-520 | a sole passive node is not the target when active is preferred; a sole active node always is; with two nodes the target is the preferred kind |
| RepoNodes.IsTargetTableauRepoResident | PaletteInsightAgent/PaletteInsightAgent.cs:482-521 | true iff this machine is a configured node, the recovery-mode query answers, and the decision picks it |
| RepoNodes.SoleNodeResident | PaletteInsightAgent/PaletteInsightAgent.cs:482-521 | a single configured node that is this machine polls unless it is passive while active is preferred |
| RepoNodes.NonRepoNodeNeverResident | PaletteInsightAgent/PaletteInsightAgent.cs:484-488 | a machine no configured node designates never polls |
| Agent.TryStartIndividualPoll | PaletteInsightAgent/PaletteInsightAgent.cs:559-581 | a held lock skips the delegate and stays held; otherwise the delegate runs once, its exception is swallowed and the lock is released |
| Agent.UploadData | PaletteInsightAgent/PaletteInsightAgent.cs:528-553 | a held upload lock leaves the disk alone; otherwise one `FileUploader.Start` pass runs and the lock is released whether or not it threw |
| Agent.PaletteInsightAgent.PollFullTables | PaletteInsightAgent/PaletteInsightAgent.cs:369-382 | off the target node, no poll and the lock untouched; on it, the guard's behaviour |
| Agent.PaletteInsightAgent.PollStreamingTables | PaletteInsightAgent/PaletteInsightAgent.cs:388-401 | the same gating on the streaming-tables lock |
| Agent.PaletteInsightAgent.IsRunning | PaletteInsightAgent/PaletteInsightAgent.cs:285-295 | true iff every enabled task has its timer, counter sampling also its sampler, and the upload timer is set; so false without the upload timer |
| Agent.PaletteInsightAgent.constructor | PaletteInsightAgent/PaletteInsightAgent.cs:100-106 | the feature switches come from the options, and the agent is not running before `Start` |
| CounterSampling.Truncate | PaletteInsightAgent/Sampler/CounterSampler.cs:206-210 | null stays null; the result is a prefix of the value, the value itself when short enough, otherwise exactly `maxLength` long |
| CounterSampling.Hex8RoundTrip | PaletteInsightAgent/Sampler/CounterSampler.cs:196 | the eight lowercase hex digits of `x8` read back, as two's complement, to the hash |
| CounterSampling.ToOracleColumnName | PaletteInsightAgent/Sampler/CounterSampler.cs:191-198 | at most 30 characters; a short name is kept; a long one becomes its first 20 characters, '_' and the eight lowercase hex digits of its hash (29 characters), the hash readable back |
| CounterSampling.OracleNameCollision | PaletteInsightAgent/Sampler/CounterSampler.cs:191-198 | two long names map to one column only if they share their first 20 characters and their hash |
| CounterSampling.MakeCounterSamplesTable | PaletteInsightAgent/Sampler/CounterSampler.cs:166-184 | a fresh `countersamples` table with columns timestamp, machine, category, instance, name, value in that order |
| CounterSampling.CounterSampler.constructor | PaletteInsightAgent/Sampler/CounterSampler.cs:24-35 | keeps the counters and builds the static counter-samples schema |
| CounterSampling.MapToSchema | PaletteInsightAgent/Sampler/CounterSampler.cs:143-164 | the mapped row sets exactly machine, category, name, value and instance, not the timestamp: the host name, the category, the counter name, the sampled value and the (possibly null) instance |
| CounterSampling.SampleRowFitsSchema | PaletteInsightAgent/Sampler/CounterSampler.cs:143-164 | a sampled row sets exactly the columns of the counter-samples table |
| CounterSampling.SampledRows | PaletteInsightAgent/Sampler/CounterSampler.cs:52-64 | one row per non-null sample, every row stamped with the poll time |
| CounterSampling.SampledRowsAppend | PaletteInsightAgent/Sampler/CounterSampler.cs:52-64 | the rows of consecutive runs of counters follow one another, so rows keep counter order |
| CounterSampling.SampledRowsOfOne | PaletteInsightAgent/Sampler/CounterSampler.cs:57-63 | a null sample adds no row; any other adds its own row |
| CounterSampling.SampledRowsFitSchema | PaletteInsightAgent/Sampler/CounterSampler.cs:61-63 | every row of a pass sets exactly the table's columns |
| CounterSampling.CounterSampler.SampleAll | PaletteInsightAgent/Sampler/CounterSampler.cs:43-70 | the rows are `SampledRows` of the samples and the failure count is the number of null samples |
| AgentOptions.PaletteInsightAgentOptions.Valid | PaletteInsightAgent/PaletteInsightAgentOptions.cs:62-69 | valid iff all four intervals are at least 1 s; any non-positive interval makes the options invalid, and valid options give every timer a period of at least 1000 ms |
| AgentOptions.PaletteInsightAgentOptions.constructor | PaletteInsightAgent/PaletteInsightAgentOptions.cs:44-47 | a fresh object has an empty log-folder list and default values elsewhere |
| AgentOptions.FreshOptionsInvalid | PaletteInsightAgent/PaletteInsightAgentOptions.cs:44-69 | a fresh object is not valid |
| AgentOptions.ValidReadsOnlyIntervals | PaletteInsightAgent/PaletteInsightAgentOptions.cs:62-69 | objects agreeing on the four intervals agree on `Valid`, whatever their other fields |
| AgentOptions.ValidSchedulesThreadInfo | PaletteInsightAgent/PaletteInsightAgentOptions.cs:62-69 | valid options give the thread-info timer a due time within one interval |
| AgentOptions.OptionsHolder.Instance | PaletteInsightAgent/PaletteInsightAgentOptions.cs:49-52 | the first access creates and keeps a fresh object; later accesses return that object |
| AgentOptions.OptionsHolder.InstanceTwice | PaletteInsightAgent/PaletteInsightAgentOptions.cs:49-52 | two accesses return the same object |
| DbConnection.DbConnectionInfo.Valid | PaletteInsightAgent/Output/Connection/DbConnectionInfo.cs:19-28 | valid settings have every name set, 0 < port <= 65535 (so the port fits the 16-bit port field) and a positive timeout; `AllConditionsValid` gives the converse |
| DbConnection.PortOutOfRangeInvalid | PaletteInsightAgent/Output/Connection/DbConnectionInfo.cs:22-23 | a port outside 1..65535 is invalid |
| DbConnection.PortBoundaries | PaletteInsightAgent/Output/Connection/DbConnectionInfo.cs:22-23 | ports 1 and 65535 pass; 0 and 65536 do not |
| DbConnection.MissingNameInvalid | PaletteInsightAgent/Output/Connection/DbConnectionInfo.cs:21-26 | a null server, user name, password or database name is invalid |
| DbConnection.TimeoutInvalid | PaletteInsightAgent/Output/Connection/DbConnectionInfo.cs:27 | a command timeout that is not positive is invalid |
| DbConnection.AllConditionsValid | PaletteInsightAgent/Output/Connection/DbConnectionInfo.cs:19-28 | all conditions holding gives valid settings, empty strings included |

## Left out

- Logging through NLog, and the Dispose and finaliser patterns, are not modelled.
- Timers and threads are not modelled:
  - timer creation and disposal in the agent's `Start` and `Stop`;
  - the background thread `UploadData` starts;
  - real monitor semantics.
- A lock is a flag: `Monitor.TryEnter`'s timeout and its reentrancy for the owning thread are not modelled. A held lock is taken to stay held for the whole wait.
- The agent's constructor and `Start` set-up are not modelled, because they are foreign calls:
  - the configuration and YAML loading through `Loader`;
  - the HTTP client set-up;
  - the version lookup;
  - writing the repository schema and index tables.
  
  `IsConnectionToTableauRepoRequired` belongs to that set-up.
- The poll delegates are functions from a state to the next state and a threw flag. Their bodies are not modelled: counter, log, thread-info and repository polling.
- Parsing `workgroup.yml` is not part of this model; the parsed workgroup is an input. A workgroup whose `Connection` is null would throw in `GetTableauRepoNodes`. The model treats the connection host as optional instead.
- Clock readings are not modelled:
  - `DeleteOldFiles` reads `DateTime.Now` once per file; the model uses one `now` for the sweep.
  - `GetNextTimerBeat` reads `DateTime.UtcNow` and `CalculateDueTime` reads `DateTime.Now`. The model takes both from one instant, as whole seconds plus the millisecond.
  - Creation times are whole numbers; the difference between `CreationTime` and `CreationTimeUtc` is not modelled.
- .NET path handling is simplified:
  - `Directory.GetFiles` glob patterns are reduced to a prefix and suffix match on the file name;
  - `Path.GetFullPath` normalisation is not modelled;
  - `\` separators are not modelled.
- Filesystem failures other than a file held open are not modelled, such as permissions and I/O errors.
- The output sink and its aggregation are not part of this model:
  - `IOutput.Write`, `OutputWriteResult.Aggregate` and `WebserviceOutput` are not shown.
  - The writer is a function of the file list.
  - The aggregation is taken to write the tables in order and concatenate their results. A write that throws ends the pass.
- The `OutputSerializer` constants are a `Layout` parameter: the data folder, the extension and the in-progress marker.
- Integer widths are not modelled. The `int` products `dueSeconds * 1000` and `pollInterval * 1000`, the `long` product `storageLimit * 1024 * 1024` and the running totals are unbounded, so their overflow is absent.
- Parts of the sampler are not modelled:
  - `DataTable`/`DataRow` are reduced to ordered columns and rows keyed by column name;
  - `Type.GetType` is not modelled;
  - the sampled value is an uninterpreted real.
- `GenerateSchema`, `BuildColumnMetadata` and the dynamic-column branch of `MapToSchema` are not modelled, because `USE_STATIC_COLUMN_NAMES` is the constant true.
- `ToSnakeCase` and `Pluralize` are not part of this model.
- `TableHelper.addColumn` is not part of this model; its default column type is written as `None`.
- Options: `ToString`, the thread safety of the lazy `Instance` getter, and the option properties the agent reads but this class does not declare are not modelled.
- PaletteInsightAgentService/Bootstrapper.cs, the service-hosting wrapper, is not part of this model.
- CounterSampling.Truncate: requires a non-negative length whenever a cut happens. `Substring` throws for a negative one; that exception is not modelled.
- FileUploaderProofs.DoUploadPlacesFiles: proved only under these conditions:
  - the written and failed files are distinct data-folder files with distinct names;
  - their targets are not held open.
  
  In other cases the model computes the outcome, but no lemma states it.
- FileUploaderProofs.DeleteOldFilesExact: assumes the listing names each file once.
- StorageLimitProofs.EvictDeletesShortestPrefix: covers the case where no delete fails. `EvictPassesOverBlocked` reduces the general case to it.
- BeatSchedule.GetNextTimerBeat: states nothing for a negative interval. Valid options exclude one.

## Behaviour worth noting

The model follows the code, including where its behaviour is easy to misread:

- **Sole repository node.** A sole passive node is not the target when the active one is preferred (PaletteInsightAgent.cs:493-520), so such a machine never polls the repository.
- **TTL sweep failures.** The sweep has no per-file catch (FileUploader.cs:70-74): one failing delete ends the sweep, and the storage-limit step of that pass is skipped.
- **Eviction stopping point.** The comment on `ApplyStorageLimit` (FileUploader.cs:77-83) says eviction goes on until the stored size is less than half the limit. The code stops once it is at half the limit or less (FileUploader.cs:119).
