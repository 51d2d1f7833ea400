/**
 * The agent's runtime options (PaletteInsightAgentOptions.cs): the settings
 * object, its validity check on the poll intervals, and the lazily created
 * process-wide instance.
 *
 * C# has a static `instance` field; here it is the field of an
 * `OptionsHolder` object that stands for the process.
 */
module AgentOptions {
  import opened Wrappers
  import opened DbConnection
  import opened BeatSchedule

  /** The shortest poll interval, in seconds. */
  const MinPollInterval: int := 1

  /** A log folder to watch and the filter for its sub-directories. */
  datatype LogFolderInfo = LogFolderInfo(folderToWatch: Option<string>, directoryFilter: Option<string>)

  /** The settings of one watched process; their fields are not part of this model. */
  datatype ProcessData = ProcessData(name: string)

  class PaletteInsightAgentOptions {
    var resultDatabase: Option<DbConnectionInfo>
    var pollInterval: int
    var logPollInterval: int
    var threadInfoPollInterval: int
    var dbWriteInterval: int
    var allProcesses: bool
    var processes: Option<map<string, ProcessData>>
    var logFolders: Option<seq<LogFolderInfo>>
    var repoHost: Option<string>
    var repoPort: int
    var repoUser: Option<string>
    var repoPass: Option<string>
    var repoDb: Option<string>

    /** A fresh options object: an empty log-folder list, everything else at its default. */
    constructor ()
      ensures logFolders == Some([])
      ensures pollInterval == 0 && logPollInterval == 0 && threadInfoPollInterval == 0 && dbWriteInterval == 0
      ensures resultDatabase.None? && processes.None? && !allProcesses
      ensures repoHost.None? && repoPort == 0 && repoUser.None? && repoPass.None? && repoDb.None?
    {
      resultDatabase := None;
      pollInterval, logPollInterval, threadInfoPollInterval, dbWriteInterval := 0, 0, 0, 0;
      allProcesses := false;
      processes := None;
      logFolders := Some([]);
      repoHost, repoPort, repoUser, repoPass, repoDb := None, 0, None, None, None;
    }

    /**
     * `Valid`: the counter, log, thread-info and database-write intervals are
     * all at least one second, so every timer built from them has a period of
     * at least 1000 ms.
     */
    predicate Valid(): (valid: bool)
      reads this
      ensures valid ==> pollInterval * 1000 >= 1000 && logPollInterval * 1000 >= 1000
      ensures valid ==> threadInfoPollInterval * 1000 >= 1000 && dbWriteInterval * 1000 >= 1000
      ensures pollInterval <= 0 || logPollInterval <= 0 || threadInfoPollInterval <= 0 || dbWriteInterval <= 0 ==> !valid
    {
      pollInterval >= MinPollInterval &&
      logPollInterval >= MinPollInterval &&
      threadInfoPollInterval >= MinPollInterval &&
      dbWriteInterval >= MinPollInterval
    }
  }

  /** Only the four intervals decide validity: two objects that agree on them agree on `Valid`. */
  lemma ValidReadsOnlyIntervals(a: PaletteInsightAgentOptions, b: PaletteInsightAgentOptions)
    requires a.pollInterval == b.pollInterval && a.logPollInterval == b.logPollInterval
    requires a.threadInfoPollInterval == b.threadInfoPollInterval && a.dbWriteInterval == b.dbWriteInterval
    ensures a.Valid() == b.Valid()
  {
  }

  /** A freshly constructed object is not valid until its intervals are configured. */
  method FreshOptionsInvalid() returns (options: PaletteInsightAgentOptions)
    ensures fresh(options) && !options.Valid() && options.logFolders == Some([])
  {
    options := new PaletteInsightAgentOptions();
  }

  /**
   * Valid options let `Start` schedule the thread-info timer: its interval
   * meets `CalculateDueTime`'s demand, and the due time lies within one
   * interval.
   */
  lemma ValidSchedulesThreadInfo(options: PaletteInsightAgentOptions, nowTs: int, millisecond: int)
    requires options.Valid() && nowTs >= 0 && 0 <= millisecond < 1000
    ensures options.threadInfoPollInterval != 0
    ensures 0 <= CalculateDueTime(options.threadInfoPollInterval, nowTs, millisecond) < options.threadInfoPollInterval * 1000
  {
    DueTimeRange(options.threadInfoPollInterval, nowTs, millisecond);
  }

  /** The process-wide holder of the options instance. */
  class OptionsHolder {
    var instance: PaletteInsightAgentOptions?

    constructor ()
      ensures instance == null
    {
      instance := null;
    }

    /**
     * `Instance`: the first access creates a fresh options object and keeps
     * it; every later access returns that same object.
     */
    method Instance() returns (options: PaletteInsightAgentOptions)
      modifies this
      ensures instance == options
      ensures old(instance) != null ==> options == old(instance)
      ensures old(instance) == null ==> fresh(options) && options.logFolders == Some([])
    {
      if instance == null {
        instance := new PaletteInsightAgentOptions();
      }
      options := instance;
    }

    /** Two accesses in a row yield the same object. */
    method InstanceTwice() returns (first: PaletteInsightAgentOptions, second: PaletteInsightAgentOptions)
      modifies this
      ensures first == second && instance == first
    {
      first := Instance();
      second := Instance();
    }
  }
}
