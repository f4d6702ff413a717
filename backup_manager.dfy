/** The backup orchestrator (lib/BackupManager.js): configuration preflight, then
    remote cleanup, database export, group compression, upload, local cleanup and a
    second remote cleanup, in that order. Every stage's effects come from an
    Environment that bundles the oracles of the stage modules and the two clock
    readings that bracket a run. */
module Backup {
  import opened Util
  import Cleanup
  import DatabaseExport
  import FileCompression
  import DriveUpload

  // ---------------------------------------------------------------------------
  // Durations and type names
  // ---------------------------------------------------------------------------

  /** The three floor divisions `formatDuration` starts from: whole seconds, whole
      minutes and whole hours elapsed (JavaScript's `Math.floor` of a quotient agrees
      with Dafny's division for a positive divisor). */
  datatype Elapsed = Elapsed(seconds: int, minutes: int, hours: int)

  function ElapsedOf(milliseconds: int): Elapsed
  {
    var seconds := milliseconds / 1000;
    var minutes := seconds / 60;
    Elapsed(seconds, minutes, minutes / 60)
  }

  /** The fields `formatDuration` displays: whole hours, the minutes within the hour
      and the seconds within the minute. */
  function DurationFields(milliseconds: int): (fields: (int, int, int))
  {
    var elapsed := ElapsedOf(milliseconds);
    (elapsed.hours, elapsed.minutes % 60, elapsed.seconds % 60)
  }

  /** `formatDuration`: 'Hh Mm Ss' from one hour on, 'Mm Ss' from one minute on, and
      'Ss' below; the shorter forms print the whole minutes or seconds elapsed. */
  function FormatDuration(milliseconds: int): (text: string)
    ensures text != [] && text[|text| - 1] == 's'
  {
    var elapsed := ElapsedOf(milliseconds);
    var (hours, minuteOfHour, secondOfMinute) := DurationFields(milliseconds);
    if elapsed.hours > 0 then
      IntToString(hours) + "h " + IntToString(minuteOfHour) + "m " + IntToString(secondOfMinute) + "s"
    else if elapsed.minutes > 0 then
      IntToString(elapsed.minutes) + "m " + IntToString(secondOfMinute) + "s"
    else
      IntToString(elapsed.seconds) + "s"
  }

  /** The displayed fields lose nothing: minutes and seconds stay below 60 and
      recombine into the whole seconds elapsed. */
  lemma DurationFieldsRecompose(milliseconds: int)
    requires milliseconds >= 0
    ensures var (h, m, s) := DurationFields(milliseconds);
      h >= 0 && 0 <= m < 60 && 0 <= s < 60 && h * 3600 + m * 60 + s == milliseconds / 1000
  {
    var seconds := milliseconds / 1000;
    var minutes := seconds / 60;
    assert seconds == 60 * minutes + seconds % 60;
    assert minutes == 60 * (minutes / 60) + minutes % 60;
  }

  /** From one hour on, the text shows exactly the recombining fields. */
  lemma FormatDurationShowsFields(milliseconds: int)
    requires milliseconds >= 3600000
    ensures var (h, m, s) := DurationFields(milliseconds);
      h > 0 && FormatDuration(milliseconds) ==
        NatToString(h) + "h " + NatToString(m) + "m " + NatToString(s) + "s"
  {
    var seconds := milliseconds / 1000;
    DivMonotone(3600000, milliseconds, 1000);
    DivMonotone(3600, seconds, 60);
    DivMonotone(60, seconds / 60, 60);
  }

  /** From one minute up to an hour, the text shows the minute and second fields. */
  lemma FormatDurationShowsMinutes(milliseconds: int)
    requires 60000 <= milliseconds < 3600000
    ensures var (h, m, s) := DurationFields(milliseconds);
      h == 0 && m > 0 && FormatDuration(milliseconds) == NatToString(m) + "m " + NatToString(s) + "s"
  {
    var seconds := milliseconds / 1000;
    DivMonotone(60000, milliseconds, 1000);
    DivMonotone(milliseconds, 3599999, 1000);
    DivMonotone(60, seconds, 60);
    DivMonotone(seconds, 3599, 60);
  }

  /** Below one minute, the text shows the second field alone. */
  lemma FormatDurationShowsSeconds(milliseconds: int)
    requires 0 <= milliseconds < 60000
    ensures var (h, m, s) := DurationFields(milliseconds);
      h == 0 && m == 0 && FormatDuration(milliseconds) == NatToString(s) + "s"
  {
    DivMonotone(milliseconds, 59999, 1000);
  }

  /** `getBackupTypeName`: the label of a known type, 'Completo' otherwise. */
  function GetBackupTypeName(backupType: string): (name: string)
    ensures name == "Completo" <==> backupType != "full" && backupType != "database" && backupType != "files"
  {
    var types := map["full" := "Completo (Bancos + Arquivos)", "database" := "Apenas Bancos de Dados",
                     "files" := "Apenas Arquivos"];
    if backupType in types then types[backupType] else "Completo"
  }

  // ---------------------------------------------------------------------------
  // What a run consults
  // ---------------------------------------------------------------------------

  /** The parts of the configuration the orchestrator and its stages read; an empty
      OAuth field is a missing one. The folder id lives in DriveUpload.DriveSettings,
      which the upload stage writes. */
  datatype BackupConfig = BackupConfig(
    oauthClientId: string,
    oauthClientSecret: string,
    database: DatabaseExport.DatabaseConfig,
    backupGroups: seq<(string, seq<string>)>,
    cleanup: Cleanup.CleanupConfig)

  /** One `cleanupRemote` call: the Drive listing, the clock and each delete's outcome. */
  datatype RemoteCleanupRun = RemoteCleanupRun(
    listing: Option<seq<Cleanup.RemoteFile>>,
    now: int,
    deleteSucceeds: nat -> bool)

  /** Everything outside the program that a run observes. */
  datatype Environment = Environment(
    startTime: int,
    endTime: int,
    cleanupBefore: RemoteCleanupRun,
    cleanupAfter: RemoteCleanupRun,
    databaseListing: DatabaseExport.ProcessRun,
    dumps: nat -> DatabaseExport.DumpRun,
    fs: FileCompression.FileSystem,
    compressionIso: string,
    archiveRuns: nat -> FileCompression.ArchiveRun,
    disk: map<string, DriveUpload.LocalFile>,
    authenticated: bool,
    drive: DriveUpload.DriveScript,
    localPresent: nat -> bool,
    localRemoved: nat -> bool)

  /** Streams deliver non-empty chunks and every upload script ends its retries. */
  ghost predicate EnvironmentWellFormed(env: Environment)
  {
    (forall i: nat :: AllPositive(env.dumps(i).chunks)) &&
    (forall i: nat :: AllPositive(env.archiveRuns(i).chunks)) &&
    DriveUpload.WellFormed(env.disk, env.drive)
  }

  datatype Stage = CleanupRemoteStage | ExportStage | CompressStage | UploadStage | CleanupLocalStage

  datatype BackupError = MissingOAuthCredentials | MissingFolderId | NoArtifacts | UploadFailed

  /** The record a successful run resolves with (the MB total is not modelled). */
  datatype BackupResult = BackupResult(
    filesProcessed: nat,
    totalFiles: nat,
    duration: string,
    backupType: Option<string>)

  predicate CredentialsConfigured(config: BackupConfig)
  {
    config.oauthClientId != "" && config.oauthClientSecret != ""
  }

  /** `googleDrive.folderId` is truthy: present and not empty. */
  predicate FolderConfigured(folderId: Option<string>)
  {
    folderId.Some? && folderId.value != ""
  }

  /** The producer stages a run performs. */
  function ProducerStages(includeDatabases: bool, includeFiles: bool): seq<Stage>
  {
    (if includeDatabases then [ExportStage] else []) + (if includeFiles then [CompressStage] else [])
  }

  /** The artifact list: the database dumps followed by the group archives. */
  function Artifacts(config: BackupConfig, env: Environment, includeDatabases: bool, includeFiles: bool): seq<string>
  {
    (if includeDatabases then DatabaseExport.ExportedFiles(config.database, env.databaseListing, env.dumps) else [])
    + (if includeFiles then FileCompression.CompressedArchives(config.backupGroups, env.fs, FileStamp(env.compressionIso), env.archiveRuns) else [])
  }

  /** The outcome of a run (successes and artifact count, or the error), the stages it
      went through, and the folder setting it leaves. */
  datatype PipelineResult = PipelineResult(outcome: Result<(nat, nat), BackupError>, stages: seq<Stage>, folderId: Option<string>)

  /** The reference run: preflight, then the fixed stage order, failing with no
      artifacts before any upload. */
  function Pipeline(config: BackupConfig, folderId: Option<string>, env: Environment,
                    includeDatabases: bool, includeFiles: bool): PipelineResult
  {
    if !CredentialsConfigured(config) then PipelineResult(Err(MissingOAuthCredentials), [], folderId)
    else if !FolderConfigured(folderId) then PipelineResult(Err(MissingFolderId), [], folderId)
    else
      var produced := [CleanupRemoteStage] + ProducerStages(includeDatabases, includeFiles);
      var artifacts := Artifacts(config, env, includeDatabases, includeFiles);
      if artifacts == [] then PipelineResult(Err(NoArtifacts), produced, folderId)
      else if !env.authenticated then PipelineResult(Err(UploadFailed), produced + [UploadStage], folderId)
      else
        var upload := DriveUpload.UploadLoop(artifacts, env.disk, folderId, env.drive, |artifacts|);
        PipelineResult(Ok((upload.successCount, |artifacts|)),
                       produced + [UploadStage, CleanupLocalStage, CleanupRemoteStage], upload.folderId)
  }

  /** The record a pipeline outcome resolves with. */
  function Report(outcome: Result<(nat, nat), BackupError>, env: Environment, backupType: Option<string>)
    : Result<BackupResult, BackupError>
  {
    match outcome
    case Ok((processed, total)) => Ok(BackupResult(processed, total, FormatDuration(env.endTime - env.startTime), backupType))
    case Err(e) => Err(e)
  }

  // ---------------------------------------------------------------------------
  // Properties of a run
  // ---------------------------------------------------------------------------

  /** Missing credentials or folder fail before any stage runs, leaving the folder. */
  lemma PreflightFailsBeforeStages(config: BackupConfig, folderId: Option<string>, env: Environment,
                                   includeDatabases: bool, includeFiles: bool)
    requires !CredentialsConfigured(config) || !FolderConfigured(folderId)
    ensures var run := Pipeline(config, folderId, env, includeDatabases, includeFiles);
      run.outcome.Err? && run.stages == [] && run.folderId == folderId &&
      (run.outcome.error == MissingOAuthCredentials <==> !CredentialsConfigured(config))
  {
  }

  /** A run fails exactly when preflight fails, no artifact was produced, or
      authentication fails; an artifact-less run never reaches the upload. */
  lemma FailureCases(config: BackupConfig, folderId: Option<string>, env: Environment,
                     includeDatabases: bool, includeFiles: bool)
    ensures var run := Pipeline(config, folderId, env, includeDatabases, includeFiles);
      var artifacts := Artifacts(config, env, includeDatabases, includeFiles);
      (run.outcome.Err? <==> !CredentialsConfigured(config) || !FolderConfigured(folderId) ||
                              artifacts == [] || !env.authenticated) &&
      (run.outcome == Err(NoArtifacts) ==> UploadStage !in run.stages && CleanupLocalStage !in run.stages &&
                                           run.stages[0] == CleanupRemoteStage)
  {
    var run := Pipeline(config, folderId, env, includeDatabases, includeFiles);
    if run.outcome == Err(NoArtifacts) {
      assert run.stages == [CleanupRemoteStage] + ProducerStages(includeDatabases, includeFiles);
    }
  }

  /** A successful run performs the stages in the fixed order, and never reports more
      files processed than artifacts produced. */
  lemma SuccessfulRunShape(config: BackupConfig, folderId: Option<string>, env: Environment,
                           includeDatabases: bool, includeFiles: bool)
    requires Pipeline(config, folderId, env, includeDatabases, includeFiles).outcome.Ok?
    ensures var run := Pipeline(config, folderId, env, includeDatabases, includeFiles);
      run.stages == [CleanupRemoteStage] + ProducerStages(includeDatabases, includeFiles) +
                    [UploadStage, CleanupLocalStage, CleanupRemoteStage] &&
      run.outcome.value.0 <= run.outcome.value.1 &&
      run.outcome.value.1 == |Artifacts(config, env, includeDatabases, includeFiles)| > 0
  {
    var artifacts := Artifacts(config, env, includeDatabases, includeFiles);
    DriveUpload.UploadCountBounded(artifacts, env.disk, folderId, env.drive);
  }

  /** A backup type other than 'full', 'database' and 'files' produces nothing and so
      always fails once past preflight. */
  lemma UnknownTypeFails(config: BackupConfig, folderId: Option<string>, env: Environment, backupType: string)
    requires CredentialsConfigured(config) && FolderConfigured(folderId)
    requires backupType != "full" && backupType != "database" && backupType != "files"
    ensures var run := Pipeline(config, folderId, env, IncludesDatabases(backupType), IncludesFiles(backupType));
      run.outcome == Err(NoArtifacts) && run.stages == [CleanupRemoteStage]
  {
  }

  /** A root fallback that fails leaves the folder undefined, so every later run in the
      same process fails preflight with a missing folder id. */
  lemma FailedFallbackBlocksLaterRuns(config: BackupConfig, folderId: Option<string>, env: Environment,
                                      includeDatabases: bool, includeFiles: bool, i: nat,
                                      later: Environment, laterDatabases: bool, laterFiles: bool)
    requires CredentialsConfigured(config) && FolderConfigured(folderId) && env.authenticated
    requires i < |Artifacts(config, env, includeDatabases, includeFiles)|
    requires DriveUpload.FallbackFailedAt(Artifacts(config, env, includeDatabases, includeFiles),
                                          env.disk, folderId, env.drive, i)
    ensures var left := Pipeline(config, folderId, env, includeDatabases, includeFiles).folderId;
      left == None && Pipeline(config, left, later, laterDatabases, laterFiles).outcome == Err(MissingFolderId)
  {
    var artifacts := Artifacts(config, env, includeDatabases, includeFiles);
    DriveUpload.FailedFallbackClearsFolder(artifacts, env.disk, folderId, env.drive, i, |artifacts|);
  }

  predicate IncludesDatabases(backupType: string)
  {
    backupType == "full" || backupType == "database"
  }

  predicate IncludesFiles(backupType: string)
  {
    backupType == "full" || backupType == "files"
  }

  /** The first cleanup and the producers: the artifacts are the dumps followed by the
      archives. */
  method Produce(config: BackupConfig, includeDatabases: bool, includeFiles: bool, env: Environment)
    returns (backupFiles: seq<string>, stages: seq<Stage>)
    requires EnvironmentWellFormed(env)
    ensures backupFiles == Artifacts(config, env, includeDatabases, includeFiles)
    ensures stages == [CleanupRemoteStage] + ProducerStages(includeDatabases, includeFiles)
  {
    RemoteCleanup(config.cleanup, env.cleanupBefore);
    stages := [CleanupRemoteStage];
    var dbFiles: seq<string> := [];
    if includeDatabases {
      dbFiles := DatabaseExport.Export(config.database, env.databaseListing, env.dumps);
      stages := stages + [ExportStage];
    }
    var compressedFiles: seq<string> := [];
    if includeFiles {
      compressedFiles := FileCompression.CompressGroups(config.backupGroups, env.fs, env.compressionIso, env.archiveRuns);
      stages := stages + [CompressStage];
    }
    backupFiles := dbFiles + compressedFiles;
  }

  /** A `cleanupRemote` stage; its report does not affect the run. */
  method RemoteCleanup(config: Cleanup.CleanupConfig, run: RemoteCleanupRun)
  {
    var _ := Cleanup.CleanupRemote(config, run.listing, run.now, run.deleteSucceeds);
  }

  // ---------------------------------------------------------------------------
  // The manager
  // ---------------------------------------------------------------------------

  class BackupManager {
    const config: BackupConfig
    const settings: DriveUpload.DriveSettings
    var startTime: Option<int>

    constructor(config: BackupConfig, settings: DriveUpload.DriveSettings)
      ensures this.config == config && this.settings == settings && startTime == None
    {
      this.config := config;
      this.settings := settings;
      startTime := None;
    }

    /** The stages shared by `run` and `executeManualBackup`, after startTime is set. */
    method Stages(includeDatabases: bool, includeFiles: bool, env: Environment)
      returns (outcome: Result<(nat, nat), BackupError>, stages: seq<Stage>)
      requires EnvironmentWellFormed(env)
      modifies settings
      ensures var run := Pipeline(config, old(settings.folderId), env, includeDatabases, includeFiles);
        outcome == run.outcome && stages == run.stages && settings.folderId == run.folderId
    {
      stages := [];
      if !CredentialsConfigured(config) {
        return Err(MissingOAuthCredentials), stages;
      }
      if !FolderConfigured(settings.folderId) {
        return Err(MissingFolderId), stages;
      }
      var backupFiles;
      backupFiles, stages := Produce(config, includeDatabases, includeFiles, env);

      if |backupFiles| == 0 {
        return Err(NoArtifacts), stages;
      }

      var uploaded := DriveUpload.UploadFiles(settings, backupFiles, env.disk, env.authenticated, env.drive);
      stages := stages + [UploadStage];
      if uploaded.Err? {
        return Err(UploadFailed), stages;
      }
      var successCount := uploaded.value;

      var _, _ := Cleanup.CleanupLocal(backupFiles, env.localPresent, env.localRemoved);
      stages := stages + [CleanupLocalStage];
      RemoteCleanup(config.cleanup, env.cleanupAfter);
      stages := stages + [CleanupRemoteStage];

      outcome := Ok((successCount, |backupFiles|));
    }

    /** `run`: a full backup (both producers). */
    method Run(env: Environment) returns (result: Result<BackupResult, BackupError>, stages: seq<Stage>)
      requires EnvironmentWellFormed(env)
      modifies this, settings
      ensures startTime == Some(env.startTime)
      ensures var run := Pipeline(config, old(settings.folderId), env, true, true);
        result == Report(run.outcome, env, None) && stages == run.stages && settings.folderId == run.folderId
      ensures result.Ok? ==> result.value.filesProcessed <= result.value.totalFiles
    {
      startTime := Some(env.startTime);
      var outcome;
      outcome, stages := Stages(true, true, env);
      result := Report(outcome, env, None);
      if outcome.Ok? {
        SuccessfulRunShape(config, old(settings.folderId), env, true, true);
      }
    }

    /** `executeManualBackup`: 'full' runs both producers, 'database' only the export,
      'files' only the compression, and any other type neither. */
    method ExecuteManualBackup(backupType: string, env: Environment)
      returns (result: Result<BackupResult, BackupError>, stages: seq<Stage>)
      requires EnvironmentWellFormed(env)
      modifies this, settings
      ensures startTime == Some(env.startTime)
      ensures var run := Pipeline(config, old(settings.folderId), env, IncludesDatabases(backupType), IncludesFiles(backupType));
        result == Report(run.outcome, env, Some(backupType)) && stages == run.stages && settings.folderId == run.folderId
      ensures result.Ok? ==> result.value.filesProcessed <= result.value.totalFiles
    {
      startTime := Some(env.startTime);
      var outcome;
      outcome, stages := Stages(IncludesDatabases(backupType), IncludesFiles(backupType), env);
      result := Report(outcome, env, Some(backupType));
      if outcome.Ok? {
        SuccessfulRunShape(config, old(settings.folderId), env, IncludesDatabases(backupType), IncludesFiles(backupType));
      }
    }
  }
}
