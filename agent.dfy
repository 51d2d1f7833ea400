/**
 * The agent's poll orchestration (PaletteInsightAgent.cs): the skip-if-busy
 * guard that every timer callback goes through, the upload callback that
 * runs one FileUploader pass under that guard, the repository-poll gating,
 * and the `IsRunning` summary of which timers are set.
 *
 * Timers fire callbacks on pool threads; here a callback is one sequential
 * call. A `PollLock` is a monitor reduced to the flag "held by another
 * callback still in progress", so acquiring it fails exactly when it is held.
 * A poll delegate is a function from the state it polls to the state after
 * it and whether it threw.
 */
module Agent {
  import opened Wrappers
  import opened FileSystem
  import opened FileUploader
  import opened RepoNodes

  /** A poll-type lock: `held` while a poll of that type is in progress. */
  class PollLock {
    var held: bool

    constructor ()
      ensures !held
    {
      held := false;
    }
  }

  /**
   * `tryStartIndividualPoll`: a held lock means a poll of this type is still
   * running, so the delegate is skipped and the lock left as it is.
   * Otherwise the delegate runs once, an exception it throws is swallowed
   * (its effects up to the throw stay), and the lock is released.
   */
  method TryStartIndividualPoll<S>(pollTypeLock: PollLock, state: S, pollDelegate: S -> (S, bool))
    returns (newState: S, ran: bool)
    modifies pollTypeLock
    ensures old(pollTypeLock.held) ==> !ran && newState == state && pollTypeLock.held
    ensures !old(pollTypeLock.held) ==> ran && newState == pollDelegate(state).0 && !pollTypeLock.held
  {
    if pollTypeLock.held {
      // Another poll of this type holds the lock: skip this one.
      return state, false;
    }
    pollTypeLock.held := true;
    var outcome := pollDelegate(state);
    // Whether or not the delegate threw, the lock is released.
    pollTypeLock.held := false;
    return outcome.0, true;
  }

  /**
   * `UploadData`: the same guard around one `FileUploader.Start` pass. When
   * the upload lock is held the disk is left alone; otherwise the pass runs,
   * an exception escaping it is swallowed and the lock is released.
   */
  method UploadData(fileUploadLock: PollLock, disk: Disk, layout: Layout, output: Output,
                    processedFilesTTL: int, storageLimit: int, now: int)
    returns (uploaded: bool)
    modifies fileUploadLock, disk
    ensures old(fileUploadLock.held) ==> !uploaded && disk.View() == old(disk.View()) && fileUploadLock.held
    ensures !old(fileUploadLock.held) ==>
      uploaded && !fileUploadLock.held &&
      disk.View() == AfterStart(old(disk.View()), layout, output, processedFilesTTL, storageLimit, now).0
  {
    if fileUploadLock.held {
      // Another upload pass holds the lock: skip this one.
      return false;
    }
    fileUploadLock.held := true;
    var ok := Start(disk, layout, output, processedFilesTTL, storageLimit, now);
    // An exception from the pass (ok == false) is logged; the lock is released either way.
    fileUploadLock.held := false;
    return true;
  }

  /** A timer; only whether the agent has one for a task matters here. */
  class Timer {
    const period: int

    constructor (period: int)
      ensures this.period == period
    {
      this.period := period;
    }
  }

  /** The counter sampler, present once `Start` has loaded the counter configuration. */
  class Sampler {
    constructor ()
    {
    }
  }

  class PaletteInsightAgent {
    var counterSampleTimer: Timer?
    var logPollTimer: Timer?
    var threadInfoTimer: Timer?
    var webserviceTimer: Timer?
    var repoTablesPollTimer: Timer?
    var streamingTablesPollTimer: Timer?
    var sampler: Sampler?

    var useCounterSamples: bool
    var useLogPoller: bool
    var useThreadInfo: bool
    var useTableauRepo: bool
    var useStreamingTables: bool

    /** `options.PreferPassiveRepository`. */
    const preferPassive: bool
    /** `RepoPollAgent.FullTablesInProgressLock` and `StreamingTablesInProgressLock`. */
    const fullTablesLock: PollLock
    const streamingTablesLock: PollLock

    /** The feature switches come from the options; no timer runs before `Start`. */
    constructor (useCounterSamples: bool, useLogPoller: bool, useThreadInfo: bool,
                 useTableauRepo: bool, useStreamingTables: bool, preferPassive: bool)
      ensures this.useCounterSamples == useCounterSamples && this.useLogPoller == useLogPoller
      ensures this.useThreadInfo == useThreadInfo && this.useTableauRepo == useTableauRepo
      ensures this.useStreamingTables == useStreamingTables && this.preferPassive == preferPassive
      ensures !fullTablesLock.held && !streamingTablesLock.held && fullTablesLock != streamingTablesLock
      ensures !IsRunning()
    {
      this.useCounterSamples := useCounterSamples;
      this.useLogPoller := useLogPoller;
      this.useThreadInfo := useThreadInfo;
      this.useTableauRepo := useTableauRepo;
      this.useStreamingTables := useStreamingTables;
      this.preferPassive := preferPassive;
      counterSampleTimer, logPollTimer, threadInfoTimer := null, null, null;
      webserviceTimer, repoTablesPollTimer, streamingTablesPollTimer := null, null, null;
      sampler := null;
      fullTablesLock := new PollLock();
      streamingTablesLock := new PollLock();
    }

    /**
     * `IsRunning`: every enabled task has its timer (counter sampling also
     * its sampler), and the upload timer is always required.
     */
    function IsRunning(): (running: bool)
      reads this
      ensures running ==> webserviceTimer != null
      ensures running <==>
        (useCounterSamples ==> sampler != null && counterSampleTimer != null) &&
        (useLogPoller ==> logPollTimer != null) &&
        (useThreadInfo ==> threadInfoTimer != null) &&
        webserviceTimer != null &&
        (useTableauRepo ==> repoTablesPollTimer != null) &&
        (useStreamingTables ==> streamingTablesPollTimer != null)
    {
      var running := true;
      var running := if useCounterSamples then running && sampler != null && counterSampleTimer != null else running;
      var running := if useLogPoller then running && logPollTimer != null else running;
      var running := if useThreadInfo then running && threadInfoTimer != null else running;
      var running := running && webserviceTimer != null;
      var running := if useTableauRepo then running && repoTablesPollTimer != null else running;
      if useStreamingTables then running && streamingTablesPollTimer != null else running
    }

    /**
     * `PollFullTables`: on a machine that is not the target repository
     * node the callback returns before touching its lock; on the target it
     * goes through the guard.
     */
    method PollFullTables<S>(host: Host, state: S, pollDelegate: S -> (S, bool)) returns (newState: S, ran: bool)
      modifies fullTablesLock
      ensures !IsTargetResident(host, preferPassive) ==>
        !ran && newState == state && fullTablesLock.held == old(fullTablesLock.held)
      ensures IsTargetResident(host, preferPassive) && old(fullTablesLock.held) ==>
        !ran && newState == state && fullTablesLock.held
      ensures IsTargetResident(host, preferPassive) && !old(fullTablesLock.held) ==>
        ran && newState == pollDelegate(state).0 && !fullTablesLock.held
    {
      var target := IsTargetTableauRepoResident(host, preferPassive);
      if !target {
        // This machine does not host the repository node to poll.
        return state, false;
      }
      newState, ran := TryStartIndividualPoll(fullTablesLock, state, pollDelegate);
    }

    /** `PollStreamingTables`: the same gating around the streaming-tables lock. */
    method PollStreamingTables<S>(host: Host, state: S, pollDelegate: S -> (S, bool)) returns (newState: S, ran: bool)
      modifies streamingTablesLock
      ensures !IsTargetResident(host, preferPassive) ==>
        !ran && newState == state && streamingTablesLock.held == old(streamingTablesLock.held)
      ensures IsTargetResident(host, preferPassive) && old(streamingTablesLock.held) ==>
        !ran && newState == state && streamingTablesLock.held
      ensures IsTargetResident(host, preferPassive) && !old(streamingTablesLock.held) ==>
        ran && newState == pollDelegate(state).0 && !streamingTablesLock.held
    {
      var target := IsTargetTableauRepoResident(host, preferPassive);
      if !target {
        // This machine does not host the repository node to poll.
        return state, false;
      }
      newState, ran := TryStartIndividualPoll(streamingTablesLock, state, pollDelegate);
    }
  }
}
