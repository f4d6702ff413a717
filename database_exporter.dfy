/** Database export planning (lib/DatabaseExporter.js). The `mysql` and `mysqldump`
    processes are given by what they produce: an exit code, the stdout text of the
    listing, and the sizes of the stdout chunks of a dump. The clock is the ISO 8601
    string `toISOString` returned when the dump started. */
module DatabaseExport {
  import opened Util
  import Glob

  // ---------------------------------------------------------------------------
  // Parsing the output of SHOW DATABASES
  // ---------------------------------------------------------------------------

  /** The characters `String.prototype.trim` removes: ECMAScript white space (tab,
      vertical tab, form feed, space, no-break space, byte order mark and the other
      space separators) and line terminators. */
  predicate IsTrimmable(c: char)
  {
    c == '\t' || c == '\U{000B}' || c == '\U{000C}' || c == ' ' || c == '\U{00A0}' || c == '\U{FEFF}'
    || c == '\U{1680}' || ('\U{2000}' <= c <= '\U{200A}') || c == '\U{202F}' || c == '\U{205F}'
    || c == '\U{3000}' || IsLineTerminator(c)
  }

  /** The length of the leading run of white space. */
  function Leading(s: string): (n: nat)
    ensures n <= |s| && (n == |s| || !IsTrimmable(s[n]))
    ensures forall i :: 0 <= i < n ==> IsTrimmable(s[i])
  {
    if s != [] && IsTrimmable(s[0]) then 1 + Leading(s[1..]) else 0
  }

  /** The length of the trailing run of white space. */
  function Trailing(s: string): (n: nat)
    ensures n <= |s| && (n == |s| || !IsTrimmable(s[|s| - n - 1]))
    ensures forall i :: |s| - n <= i < |s| ==> IsTrimmable(s[i])
  {
    if s != [] && IsTrimmable(s[|s| - 1]) then 1 + Trailing(s[..|s| - 1]) else 0
  }

  function TrimStart(s: string): (r: string)
    ensures |r| <= |s| && r == s[|s| - |r|..]
    ensures forall i :: 0 <= i < |s| - |r| ==> IsTrimmable(s[i])
    ensures r == [] || !IsTrimmable(r[0])
  {
    s[Leading(s)..]
  }

  function TrimEnd(s: string): (r: string)
    ensures |r| <= |s| && r == s[..|r|]
    ensures forall i :: |r| <= i < |s| ==> IsTrimmable(s[i])
    ensures r == [] || !IsTrimmable(r[|r| - 1])
  {
    s[..|s| - Trailing(s)]
  }

  /** `String.prototype.trim`. */
  function Trim(s: string): (r: string)
  {
    TrimEnd(TrimStart(s))
  }

  /** The trimmed text is the slice of s that starts where TrimStart's result does. */
  lemma TrimSlice(s: string) returns (start: nat)
    ensures start == |s| - |TrimStart(s)|
    ensures start + |Trim(s)| <= |s| && Trim(s) == s[start..start + |Trim(s)|]
  {
    var a := TrimStart(s);
    start := |s| - |a|;
    var r := TrimEnd(a);
    PrefixOfSuffix(s, start, |r|);
  }

  lemma PrefixOfSuffix(s: string, start: nat, n: nat)
    requires start + n <= |s|
    ensures s[start..][..n] == s[start..start + n]
  {
  }

  /** The trimmed text is s without its leading and trailing white space: it is a slice
      of s, everything cut off is white space, and neither end of it is. */
  lemma TrimIsSlice(s: string) returns (start: nat)
    ensures start + |Trim(s)| <= |s| && Trim(s) == s[start..start + |Trim(s)|]
    ensures forall i :: 0 <= i < start ==> IsTrimmable(s[i])
    ensures forall i :: start + |Trim(s)| <= i < |s| ==> IsTrimmable(s[i])
    ensures Trim(s) == [] || (!IsTrimmable(Trim(s)[0]) && !IsTrimmable(Trim(s)[|Trim(s)| - 1]))
  {
    start := TrimSlice(s);
    var a := TrimStart(s);
    var r := Trim(s);
    forall i | start + |r| <= i < |s|
      ensures IsTrimmable(s[i])
    {
      assert a[i - start] == s[i];
    }
    if r != [] {
      assert r[0] == a[0];
    }
  }

  /** A line is empty after trimming exactly when it is all white space. */
  lemma {:induction false} TrimEmptyIffBlank(s: string)
    ensures Trim(s) == [] <==> forall i :: 0 <= i < |s| ==> IsTrimmable(s[i])
  {
    var start := TrimIsSlice(s);
    if Trim(s) != [] {
      assert Trim(s)[0] == s[start];
    }
  }

  /** `s.split(sep)` for a one-character separator: at least one part, the parts
      separated by sep in the original text. */
  function Split(s: string, sep: char): (parts: seq<string>)
    ensures |parts| >= 1
    ensures forall i :: 0 <= i < |parts| ==> sep !in parts[i]
  {
    if s == [] then [""]
    else
      var rest := Split(s[1..], sep);
      if s[0] == sep then [""] + rest
      else [[s[0]] + rest[0]] + rest[1..]
  }

  /** `parts.join(sep)`. */
  function Join(parts: seq<string>, sep: char): string
    requires |parts| >= 1
  {
    if |parts| == 1 then parts[0] else parts[0] + [sep] + Join(parts[1..], sep)
  }

  /** Splitting loses nothing: joining the lines back gives the original output. */
  lemma {:induction false} SplitJoinRoundTrip(s: string, sep: char)
    ensures Join(Split(s, sep), sep) == s
  {
    if s != [] {
      var rest := Split(s[1..], sep);
      SplitJoinRoundTrip(s[1..], sep);
      if s[0] == sep {
        assert Split(s, sep)[1..] == rest;
      } else {
        var parts := Split(s, sep);
        assert parts[0] == [s[0]] + rest[0];
        if |rest| == 1 {
          assert Join(parts, sep) == parts[0];
        } else {
          assert parts[1..] == rest[1..];
          assert Join(parts, sep) == parts[0] + [sep] + Join(rest[1..], sep);
          assert Join(rest, sep) == rest[0] + [sep] + Join(rest[1..], sep);
        }
        assert s == [s[0]] + s[1..];
      }
    }
  }

  /** The trimmed lines of a process's output. */
  function TrimmedLines(output: string): (lines: seq<string>)
  {
    Map(Split(output, '\n'), Trim)
  }

  /** What a `mysql` or `mysqldump` process did. */
  datatype ProcessRun = ProcessRun(exitCode: int, stdout: string, stderr: string)

  datatype ExportError =
    | ListingFailed(stderr: string)
    | DumpFailed(database: string, exitCode: int)

  /** `listDatabases`: on exit code 0, the trimmed non-empty lines of the output that are
      not excluded; any other exit code rejects with the collected stderr. */
  function ListDatabases(run: ProcessRun, excluded: seq<string>): (r: Result<seq<string>, ExportError>)
    ensures r.Ok? <==> run.exitCode == 0
    ensures r.Err? ==> r.error == ListingFailed(run.stderr)
    ensures r.Ok? ==> IsSubsequence(r.value, TrimmedLines(run.stdout))
    ensures r.Ok? ==> forall i :: 0 <= i < |r.value| ==> r.value[i] != "" && r.value[i] !in excluded
    ensures r.Ok? ==> forall i :: 0 <= i < |TrimmedLines(run.stdout)| ==>
      var line := TrimmedLines(run.stdout)[i];
      line != "" && line !in excluded ==> line in r.value
  {
    if run.exitCode == 0 then
      Ok(Filter(TrimmedLines(run.stdout), (db: string) => db != "" && db !in excluded))
    else
      Err(ListingFailed(run.stderr))
  }

  // ---------------------------------------------------------------------------
  // One dump: file name, progress estimate, exit code
  // ---------------------------------------------------------------------------

  /** The file an individual dump writes: `db-<name>-<stamp>.sql`. */
  function DumpFileName(dbName: string, stamp: string): string
  {
    "db-" + dbName + "-" + stamp + ".sql"
  }

  /** The file a dump of every database writes: `all-databases-<stamp>.sql`. */
  function AllDumpFileName(stamp: string): string
  {
    "all-databases-" + stamp + ".sql"
  }

  /** Every individual dump name is accepted by the retention pattern `db-*.sql`, so
      the dumps a run uploads are eligible for later cleanup under that pattern. */
  lemma DumpFileNameMatchesDbGlob(dbName: string, iso: string)
    requires NoLineTerminators(dbName) && NoLineTerminators(iso)
    ensures Glob.GlobMatches("db-*.sql", DumpFileName(dbName, FileStamp(iso)))
  {
    var ts := FileStamp(iso);
    var middle := dbName + "-" + ts;
    forall i | 0 <= i < |middle|
      ensures !IsLineTerminator(middle[i])
    {
      if i < |dbName| {
        assert middle[i] == dbName[i];
      } else if i > |dbName| {
        assert middle[i] == ts[i - |dbName| - 1];
      }
    }
    Glob.DbGlobAcceptsDumpNames(middle);
    assert "db-" + middle + ".sql" == DumpFileName(dbName, ts);
  }

  /** One mysqldump invocation: the clock reading when it started, the sizes of the
      stdout chunks in arrival order, and its exit code. */
  datatype DumpRun = DumpRun(iso: string, chunks: seq<nat>, exitCode: int)

  /** The stdout handler of a dump: currentSize grows by each chunk, totalSize is
      seeded once, at ten times the first chunk, and each chunk reports a percent. */
  method DumpProgress(chunks: seq<nat>) returns (reports: seq<int>, totalSize: nat)
    requires AllPositive(chunks)
    ensures |reports| == |chunks|
    ensures forall i :: 0 <= i < |chunks| ==> reports[i] == StreamPercent(chunks, i, 10 * chunks[0])
    ensures forall i :: 0 <= i < |reports| ==> 0 <= reports[i] <= 95
    ensures forall i, j :: 0 <= i <= j < |reports| ==> reports[i] <= reports[j]
    ensures totalSize == if chunks == [] then 0 else 10 * chunks[0]
  {
    var currentSize: nat := 0;
    totalSize := 0;
    reports := [];
    for i := 0 to |chunks|
      invariant currentSize == Sum(chunks[..i])
      invariant totalSize == if i == 0 then 0 else 10 * chunks[0]
      invariant |reports| == i
      invariant forall k :: 0 <= k < i ==> reports[k] == StreamPercent(chunks, k, 10 * chunks[0])
      invariant forall k, l :: 0 <= k <= l < i ==> reports[k] <= reports[l]
    {
      assert chunks[..i + 1][..i] == chunks[..i];
      currentSize := currentSize + chunks[i];
      if totalSize == 0 {
        assert chunks[..1] == [chunks[0]];
        totalSize := currentSize * 10;
      }
      var progress := CappedPercent(currentSize, totalSize);
      forall k | 0 <= k < i
        ensures reports[k] <= progress
      {
        SumPrefixMonotone(chunks, k + 1, i + 1);
        CappedPercentMonotone(Sum(chunks[..k + 1]), currentSize, totalSize);
      }
      reports := reports + [progress];
    }
  }

  /** The close handler of a dump writing dumpFile: exit code 0 reports 100 and resolves
      with the file name; any other code rejects. */
  method RunDump(dbName: string, dumpFile: string, run: DumpRun)
    returns (result: Result<string, ExportError>, reports: seq<int>)
    requires AllPositive(run.chunks)
    ensures result == if run.exitCode == 0 then Ok(dumpFile) else Err(DumpFailed(dbName, run.exitCode))
    ensures |reports| == |run.chunks| + (if run.exitCode == 0 then 1 else 0)
    ensures forall i :: 0 <= i < |run.chunks| ==> reports[i] == StreamPercent(run.chunks, i, 10 * run.chunks[0]) && reports[i] <= 95
    ensures 100 in reports <==> run.exitCode == 0
    ensures run.exitCode == 0 ==> reports[|reports| - 1] == 100
  {
    var streamed, _ := DumpProgress(run.chunks);
    if run.exitCode == 0 {
      reports := streamed + [100];
      result := Ok(dumpFile);
    } else {
      reports := streamed;
      result := Err(DumpFailed(dbName, run.exitCode));
    }
  }

  /** `exportSingleDatabase`. */
  method ExportSingleDatabase(dbName: string, run: DumpRun)
    returns (result: Result<string, ExportError>, reports: seq<int>)
    requires AllPositive(run.chunks)
    ensures result == if run.exitCode == 0 then Ok(DumpFileName(dbName, FileStamp(run.iso)))
                      else Err(DumpFailed(dbName, run.exitCode))
    ensures |reports| >= |run.chunks|
    ensures 100 in reports <==> run.exitCode == 0
    ensures forall i :: 0 <= i < |run.chunks| ==> reports[i] == StreamPercent(run.chunks, i, 10 * run.chunks[0])
  {
    var timestamp := FileStamp(run.iso);
    var dumpFile := DumpFileName(dbName, timestamp);
    result, reports := RunDump(dbName, dumpFile, run);
  }

  /** `exportAllDatabases`. */
  method ExportAllDatabases(run: DumpRun) returns (result: Result<string, ExportError>, reports: seq<int>)
    requires AllPositive(run.chunks)
    ensures result == if run.exitCode == 0 then Ok(AllDumpFileName(FileStamp(run.iso)))
                      else Err(DumpFailed("", run.exitCode))
    ensures |reports| >= |run.chunks|
    ensures 100 in reports <==> run.exitCode == 0
    ensures forall i :: 0 <= i < |run.chunks| ==> reports[i] == StreamPercent(run.chunks, i, 10 * run.chunks[0])
  {
    var timestamp := FileStamp(run.iso);
    var dumpFile := AllDumpFileName(timestamp);
    result, reports := RunDump("", dumpFile, run);
  }

  // ---------------------------------------------------------------------------
  // Strategy dispatch
  // ---------------------------------------------------------------------------

  /** The `database` section of the configuration. */
  datatype DatabaseConfig = DatabaseConfig(
    backupEnabled: bool,
    backupStrategy: string,
    individualDatabases: seq<string>,
    excludedDatabases: seq<string>)

  /** The databases a multi-database strategy dumps one by one, or None when the
      listing it needs fails ('individual' lists only when its own list is empty). */
  function ExportTargets(config: DatabaseConfig, listing: ProcessRun): Option<seq<string>>
  {
    if config.backupStrategy == "individual" then
      if |config.individualDatabases| > 0 then Some(config.individualDatabases)
      else match ListDatabases(listing, config.excludedDatabases)
        case Ok(dbs) => Some(dbs)
        case Err(_) => None
    else
      match ListDatabases(listing, config.excludedDatabases)
      case Ok(dbs) => Some(Filter(dbs, (db: string) => db !in config.excludedDatabases))
      case Err(_) => None
  }

  /** The files of the successful dumps among targets, in target order; dumps(i) is
      the i-th mysqldump invocation, the one for targets[i]. */
  function SuccessfulDumps(targets: seq<string>, dumps: nat -> DumpRun): (files: seq<string>)
    ensures |files| == Count(|targets|, (i: nat) => dumps(i).exitCode == 0)
  {
    if targets == [] then []
    else
      var n := |targets| - 1;
      SuccessfulDumps(targets[..n], dumps)
      + (if dumps(n).exitCode == 0 then [DumpFileName(targets[n], FileStamp(dumps(n).iso))] else [])
  }

  /** Each file comes from a successful dump of one of the targets. */
  lemma {:induction false} SuccessfulDumpOrigin(targets: seq<string>, dumps: nat -> DumpRun, k: nat)
    requires k < |SuccessfulDumps(targets, dumps)|
    ensures exists i :: (0 <= i < |targets| && dumps(i).exitCode == 0 &&
      SuccessfulDumps(targets, dumps)[k] == DumpFileName(targets[i], FileStamp(dumps(i).iso)))
  {
    var n := |targets| - 1;
    var prefix := SuccessfulDumps(targets[..n], dumps);
    if k < |prefix| {
      SuccessfulDumpOrigin(targets[..n], dumps, k);
      var i :| 0 <= i < n && dumps(i).exitCode == 0 &&
        prefix[k] == DumpFileName(targets[..n][i], FileStamp(dumps(i).iso));
      assert targets[..n][i] == targets[i];
    } else {
      assert SuccessfulDumps(targets, dumps)[k] == DumpFileName(targets[n], FileStamp(dumps(n).iso));
    }
  }

  /** Whether the i-th dump exited 0. */
  function DumpSucceeded(dumps: nat -> DumpRun): nat -> bool
  {
    (i: nat) => dumps(i).exitCode == 0
  }

  /** One more target adds its file, if its dump succeeded. */
  lemma SuccessfulDumpsSnoc(targets: seq<string>, dumps: nat -> DumpRun, n: nat)
    requires n < |targets|
    ensures SuccessfulDumps(targets[..n + 1], dumps) == SuccessfulDumps(targets[..n], dumps)
      + (if dumps(n).exitCode == 0 then [DumpFileName(targets[n], FileStamp(dumps(n).iso))] else [])
  {
    assert targets[..n + 1][..n] == targets[..n];
  }

  /** The dump file of target i. */
  function DumpNameAt(targets: seq<string>, dumps: nat -> DumpRun): nat -> string
  {
    (i: nat) => if i < |targets| then DumpFileName(targets[i], FileStamp(dumps(i).iso)) else ""
  }

  /** The files of the first n targets are those of the successful dumps below n, in
      target order. */
  lemma {:induction false} DumpsOfPrefixInOrder(targets: seq<string>, dumps: nat -> DumpRun, n: nat)
    requires n <= |targets|
    ensures SuccessfulDumps(targets[..n], dumps) == Picked(n, DumpSucceeded(dumps), DumpNameAt(targets, dumps))
  {
    if n > 0 {
      DumpsOfPrefixInOrder(targets, dumps, n - 1);
      SuccessfulDumpsSnoc(targets, dumps, n - 1);
    }
  }

  /** The files follow the target order, one per successful dump: they are the files
      of the targets `Indices` picks out, which are exactly the targets whose dump
      exited 0, in increasing order. */
  lemma SuccessfulDumpsInTargetOrder(targets: seq<string>, dumps: nat -> DumpRun)
    ensures SuccessfulDumps(targets, dumps) == Map(Indices(|targets|, DumpSucceeded(dumps)), DumpNameAt(targets, dumps))
  {
    DumpsOfPrefixInOrder(targets, dumps, |targets|);
    PickedIndices(|targets|, DumpSucceeded(dumps), DumpNameAt(targets, dumps));
    assert targets[..|targets|] == targets;
  }

  /** A failed dump is skipped and the others continue: every successful dump's file is
      in the result, whatever failed before or after it. */
  lemma {:induction false} SuccessfulDumpIncluded(targets: seq<string>, dumps: nat -> DumpRun, i: nat)
    requires i < |targets| && dumps(i).exitCode == 0
    ensures DumpFileName(targets[i], FileStamp(dumps(i).iso)) in SuccessfulDumps(targets, dumps)
  {
    var n := |targets| - 1;
    if i < n {
      SuccessfulDumpIncluded(targets[..n], dumps, i);
      assert targets[..n][i] == targets[i];
    }
  }

  /** The files `export` resolves with. */
  function ExportedFiles(config: DatabaseConfig, listing: ProcessRun, dumps: nat -> DumpRun): seq<string>
  {
    if !config.backupEnabled then []
    else if config.backupStrategy == "all" then
      if dumps(0).exitCode == 0 then [AllDumpFileName(FileStamp(dumps(0).iso))] else []
    else if config.backupStrategy == "individual" || config.backupStrategy == "except" then
      match ExportTargets(config, listing)
      case None => []
      case Some(targets) => SuccessfulDumps(targets, dumps)
    else []
  }

  /** `export`: disabled or unknown strategies give no files; 'all' gives the one dump
      if it succeeded; the multi-database strategies give the successful dumps in order.
      It never fails: a failed listing or a failed 'all' dump gives what was collected. */
  method Export(config: DatabaseConfig, listing: ProcessRun, dumps: nat -> DumpRun)
    returns (backupFiles: seq<string>)
    requires forall i: nat :: AllPositive(dumps(i).chunks)
    ensures !config.backupEnabled ==> backupFiles == []
    ensures config.backupEnabled && config.backupStrategy == "all" ==>
      backupFiles == if dumps(0).exitCode == 0 then [AllDumpFileName(FileStamp(dumps(0).iso))] else []
    ensures config.backupEnabled && (config.backupStrategy == "individual" || config.backupStrategy == "except") ==>
      backupFiles == match ExportTargets(config, listing)
        case None => []
        case Some(targets) => SuccessfulDumps(targets, dumps)
    ensures (config.backupStrategy != "all" && config.backupStrategy != "individual" &&
             config.backupStrategy != "except") ==> backupFiles == []
    ensures backupFiles == ExportedFiles(config, listing, dumps)
  {
    if !config.backupEnabled {
      return [];
    }
    backupFiles := [];
    if config.backupStrategy == "all" {
      var result, _ := ExportAllDatabases(dumps(0));
      if result.Ok? {
        backupFiles := backupFiles + [result.value];
      }
    } else if config.backupStrategy == "individual" || config.backupStrategy == "except" {
      var targets := ExportTargets(config, listing);
      if targets.Some? {
        backupFiles := ExportEach(targets.value, dumps);
      }
    }
  }

  /** The loop over the databases of 'individual' and 'except': a failed dump is
      reported and skipped, the others continue. */
  method ExportEach(databases: seq<string>, dumps: nat -> DumpRun) returns (backupFiles: seq<string>)
    requires forall i: nat :: AllPositive(dumps(i).chunks)
    ensures backupFiles == SuccessfulDumps(databases, dumps)
  {
    backupFiles := [];
    for i := 0 to |databases|
      invariant backupFiles == SuccessfulDumps(databases[..i], dumps)
    {
      assert databases[..i + 1][..i] == databases[..i];
      var result, _ := ExportSingleDatabase(databases[i], dumps(i));
      if result.Ok? {
        backupFiles := backupFiles + [result.value];
      }
    }
    assert databases[..|databases|] == databases;
  }

  /** 'individual' dumps the configured list when it is non-empty, without listing. */
  lemma IndividualUsesConfiguredList(config: DatabaseConfig, listing: ProcessRun)
    requires config.backupStrategy == "individual" && |config.individualDatabases| > 0
    ensures ExportTargets(config, listing) == Some(config.individualDatabases)
  {
  }

  /** 'except' never exports a listed database that is excluded or blank: each of its
      files is the dump of a non-empty database outside the excluded list. */
  lemma ExceptNeverExportsExcluded(config: DatabaseConfig, listing: ProcessRun, dumps: nat -> DumpRun, k: nat)
    requires config.backupStrategy == "except" && ExportTargets(config, listing).Some?
    requires k < |SuccessfulDumps(ExportTargets(config, listing).value, dumps)|
    ensures exists i :: (0 <= i < |ExportTargets(config, listing).value| &&
      var db := ExportTargets(config, listing).value[i];
      db != "" && db !in config.excludedDatabases && dumps(i).exitCode == 0 &&
      SuccessfulDumps(ExportTargets(config, listing).value, dumps)[k] == DumpFileName(db, FileStamp(dumps(i).iso)))
  {
    var targets := ExportTargets(config, listing).value;
    SuccessfulDumpOrigin(targets, dumps, k);
  }
}
