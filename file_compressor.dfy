/** Group archiving (lib/FileCompressor.js). The filesystem is a map from path to what
    `fs.statSync` says about it (absent keys are paths `fs.existsSync` rejects), the
    tar+gzip archiver is given by the sizes of the chunks it emits and whether it
    reports an error, and the clock by one ISO 8601 reading. */
module FileCompression {
  import opened Util

  /** What `fs.statSync` makes of an existing path; Unstatable is a path that exists
      but whose stat throws. */
  datatype PathInfo = Directory | RegularFile(size: nat) | Unstatable

  type FileSystem = map<string, PathInfo>

  /** The estimate budgeted for a directory: 100 MiB. */
  const DirectoryEstimate: nat := 100 * 1024 * 1024

  /** The estimate budgeted for an existing path whose stat throws: 10 MiB. */
  const UnstatableEstimate: nat := 10 * 1024 * 1024

  /** What one path adds to the size estimate. */
  function EstimateOf(path: string, fs: FileSystem): nat
  {
    if path !in fs then 0
    else match fs[path]
      case Directory => DirectoryEstimate
      case RegularFile(size) => size
      case Unstatable => UnstatableEstimate
  }

  /** The size estimate of a list of paths: the sum of what each one adds. */
  function EstimatedSize(files: seq<string>, fs: FileSystem): nat
  {
    if files == [] then 0
    else EstimatedSize(files[..|files| - 1], fs) + EstimateOf(files[|files| - 1], fs)
  }

  lemma {:induction false} EstimatedSizeAppend(xs: seq<string>, ys: seq<string>, fs: FileSystem)
    ensures EstimatedSize(xs + ys, fs) == EstimatedSize(xs, fs) + EstimatedSize(ys, fs)
    decreases |ys|
  {
    if ys == [] {
      assert xs + ys == xs;
    } else {
      var n := |ys| - 1;
      assert (xs + ys)[..|xs + ys| - 1] == xs + ys[..n];
      EstimatedSizeAppend(xs, ys[..n], fs);
    }
  }

  /** Paths that do not exist add nothing: estimating the whole list is estimating the
      paths that pass `fs.existsSync`. */
  lemma {:induction false} EstimateIgnoresMissing(files: seq<string>, fs: FileSystem)
    ensures EstimatedSize(files, fs) == EstimatedSize(Filter(files, (f: string) => f in fs), fs)
    decreases |files|
  {
    if files != [] {
      var keep := (f: string) => f in fs;
      var n := |files| - 1;
      assert files == files[..n] + [files[n]];
      FilterAppend(files[..n], [files[n]], keep);
      EstimateIgnoresMissing(files[..n], fs);
      EstimatedSizeAppend(Filter(files[..n], keep), Filter([files[n]], keep), fs);
      assert EstimatedSize([files[n]], fs) == EstimateOf(files[n], fs) by {
        assert [files[n]][..0] == [];
      }
      if files[n] in fs {
        assert Filter([files[n]], keep) == [files[n]];
      } else {
        assert Filter([files[n]], keep) == [];
      }
    }
  }

  /** Each existing directory adds at least 100 MiB to the estimate. */
  lemma {:induction false} EstimateCoversDirectories(files: seq<string>, fs: FileSystem)
    ensures EstimatedSize(files, fs) >= DirectoryEstimate * Count(|files|, (i: nat) => i < |files| && files[i] in fs && fs[files[i]] == Directory)
  {
    var isDir := (i: nat) => i < |files| && files[i] in fs && fs[files[i]] == Directory;
    DirectoriesInPrefix(files, fs, |files|);
    assert files[..|files|] == files;
  }

  lemma {:induction false} DirectoriesInPrefix(files: seq<string>, fs: FileSystem, n: nat)
    requires n <= |files|
    ensures EstimatedSize(files[..n], fs) >= DirectoryEstimate * Count(n, (i: nat) => i < |files| && files[i] in fs && fs[files[i]] == Directory)
  {
    if n > 0 {
      DirectoriesInPrefix(files, fs, n - 1);
      assert files[..n][..n - 1] == files[..n - 1];
      assert EstimatedSize(files[..n], fs) == EstimatedSize(files[..n - 1], fs) + EstimateOf(files[n - 1], fs);
    }
  }

  /** The first `forEach` of `createTarGz`: the estimate as a loop. */
  method EstimateTotalSize(files: seq<string>, fs: FileSystem) returns (totalSize: nat)
    ensures totalSize == EstimatedSize(files, fs)
  {
    totalSize := 0;
    for i := 0 to |files|
      invariant totalSize == EstimatedSize(files[..i], fs)
    {
      assert files[..i + 1][..i] == files[..i];
      var file := files[i];
      if file in fs {
        match fs[file]
        case Directory =>
          totalSize := totalSize + DirectoryEstimate;
        case RegularFile(size) =>
          totalSize := totalSize + size;
        case Unstatable =>
          totalSize := totalSize + UnstatableEstimate;
      }
    }
    assert files[..|files|] == files;
  }

  /** Whether the second `forEach` gets through: no existing path of the list has a
      stat that throws. That loop stats without a guard, so such a path rejects the
      archive even though the estimate budgeted for it. */
  predicate AllStatable(files: seq<string>, fs: FileSystem)
  {
    forall i :: 0 <= i < |files| && files[i] in fs ==> fs[files[i]] != Unstatable
  }

  /** One entry the archive receives: a directory added recursively or a file, each
      under the basename of its path. */
  datatype ArchiveEntry = DirectoryEntry(path: string, name: string) | FileEntry(path: string, name: string)

  /** The entries the second `forEach` adds, in list order, skipping missing paths. */
  function ArchiveEntries(files: seq<string>, fs: FileSystem): (entries: seq<ArchiveEntry>)
    requires AllStatable(files, fs)
    ensures |entries| <= |files|
  {
    if files == [] then []
    else
      var n := |files| - 1;
      var f := files[n];
      assert AllStatable(files[..n], fs) by {
        forall i | 0 <= i < n && files[..n][i] in fs
          ensures fs[files[..n][i]] != Unstatable
        {
          assert files[..n][i] == files[i];
        }
      }
      ArchiveEntries(files[..n], fs)
      + (if f !in fs then []
         else if fs[f] == Directory then [DirectoryEntry(f, Basename(f))]
         else [FileEntry(f, Basename(f))])
  }

  /** Every entry is an existing path of the list, named by its basename and added as a
      directory exactly when it is one; every existing path gets an entry. */
  lemma {:induction false} ArchiveEntriesMembers(files: seq<string>, fs: FileSystem)
    requires AllStatable(files, fs)
    ensures forall e :: e in ArchiveEntries(files, fs) ==>
      e.path in files && e.path in fs && e.name == Basename(e.path) && (e.DirectoryEntry? <==> fs[e.path] == Directory)
    ensures forall i :: 0 <= i < |files| && files[i] in fs ==>
      exists e :: e in ArchiveEntries(files, fs) && e.path == files[i]
  {
    if files != [] {
      var n := |files| - 1;
      ArchiveEntriesMembers(files[..n], fs);
      forall i | 0 <= i < |files| && files[i] in fs
        ensures exists e :: e in ArchiveEntries(files, fs) && e.path == files[i]
      {
        var whole := ArchiveEntries(files, fs);
        if i < n {
          assert files[..n][i] == files[i];
          var e :| e in ArchiveEntries(files[..n], fs) && e.path == files[i];
          assert e in whole;
        } else {
          var e := whole[|whole| - 1];
          assert e.path == files[i];
        }
      }
    }
  }

  /** What the archiver does once finalized: the sizes of the compressed chunks it
      emits and whether it then emits `error` instead of the output's `close`. */
  datatype ArchiveRun = ArchiveRun(chunks: seq<nat>, fails: bool)

  datatype ArchiveError = StatFailed(path: string) | ArchiverFailed

  lemma StatableStep(files: seq<string>, i: nat, fs: FileSystem)
    requires i < |files| && AllStatable(files[..i], fs)
    requires files[i] in fs ==> fs[files[i]] != Unstatable
    ensures AllStatable(files[..i + 1], fs)
    ensures files[..i + 1][..i] == files[..i]
  {
    assert files[..i + 1][..i] == files[..i];
    var prefix := files[..i + 1];
    forall j | 0 <= j < i + 1 && prefix[j] in fs
      ensures fs[prefix[j]] != Unstatable
    {
      if j < i {
        assert prefix[j] == files[..i][j];
      }
    }
  }

  /** The second `forEach` of `createTarGz`: the archive entries, or the first existing
      path whose stat throws, which rejects the promise. */
  method AddEntries(files: seq<string>, fs: FileSystem) returns (r: Result<seq<ArchiveEntry>, ArchiveError>)
    ensures r.Ok? <==> AllStatable(files, fs)
    ensures r.Ok? ==> r.value == ArchiveEntries(files, fs)
    ensures r.Err? ==> r.error.StatFailed? && r.error.path in files && r.error.path in fs && fs[r.error.path] == Unstatable
  {
    var entries := [];
    for i := 0 to |files|
      invariant AllStatable(files[..i], fs)
      invariant entries == ArchiveEntries(files[..i], fs)
    {
      var file := files[i];
      if file in fs && fs[file] == Unstatable {
        return Err(StatFailed(file));
      }
      StatableStep(files, i, fs);
      if file in fs {
        if fs[file] == Directory {
          entries := entries + [DirectoryEntry(file, Basename(file))];
        } else {
          entries := entries + [FileEntry(file, Basename(file))];
        }
      }
    }
    assert files[..|files|] == files;
    return Ok(entries);
  }

  /** `createTarGz`: resolves with the output path when every path stats and the
      archiver finishes; the percents are the streamed bytes against the estimate,
      capped at 95, then 100 when the output closes. */
  method CreateTarGz(files: seq<string>, outputPath: string, fs: FileSystem, run: ArchiveRun)
    returns (result: Result<string, ArchiveError>, entries: seq<ArchiveEntry>, reports: seq<int>)
    requires AllPositive(run.chunks)
    ensures result.Ok? <==> AllStatable(files, fs) && !run.fails
    ensures result.Ok? ==> result.value == outputPath
    ensures !AllStatable(files, fs) ==>
      (result.Err? && result.error.StatFailed? && result.error.path in files &&
       result.error.path in fs && fs[result.error.path] == Unstatable && reports == [])
    ensures AllStatable(files, fs) ==>
      entries == ArchiveEntries(files, fs) &&
      |reports| == |run.chunks| + (if run.fails then 0 else 1) &&
      (forall i :: 0 <= i < |run.chunks| ==> reports[i] == StreamPercent(run.chunks, i, EstimatedSize(files, fs))) &&
      (!run.fails ==> reports[|reports| - 1] == 100)
  {
    var totalSize := EstimateTotalSize(files, fs);
    var added := AddEntries(files, fs);
    if added.Err? {
      return Err(added.error), [], [];
    }
    entries := added.value;
    reports := StreamProgress(run.chunks, totalSize);
    if run.fails {
      result := Err(ArchiverFailed);
    } else {
      reports := reports + [100];
      result := Ok(outputPath);
    }
  }

  /** The archive name of a group: `<group>-<stamp>.tar.gz`. */
  function GroupArchiveName(groupName: string, stamp: string): string
  {
    groupName + "-" + stamp + ".tar.gz"
  }

  /** The paths of a group that pass `fs.existsSync`. */
  function ValidFiles(files: seq<string>, fs: FileSystem): (valid: seq<string>)
    ensures forall i :: 0 <= i < |valid| ==> valid[i] in fs && valid[i] in files
    ensures forall i :: 0 <= i < |files| && files[i] in fs ==> files[i] in valid
    ensures IsSubsequence(valid, files)
    ensures forall f {:trigger multiset(valid)[f]} :: multiset(valid)[f] == if f in fs then multiset(files)[f] else 0
  {
    var present := (f: string) => f in fs;
    FilterCounts(files, present);
    Filter(files, present)
  }

  /** Whether group i yields an archive: it has a valid path and its archive succeeds. */
  predicate GroupArchived(group: (string, seq<string>), fs: FileSystem, run: ArchiveRun)
  {
    var valid := ValidFiles(group.1, fs);
    |valid| > 0 && AllStatable(valid, fs) && !run.fails
  }

  /** The archives of the first groups, in group order, all named with one stamp;
      runs(i) is the archiver run for group i. */
  function CompressedArchives(groups: seq<(string, seq<string>)>, fs: FileSystem, stamp: string,
                              runs: nat -> ArchiveRun): (archives: seq<string>)
    ensures |archives| == Count(|groups|, (i: nat) => i < |groups| && GroupArchived(groups[i], fs, runs(i)))
  {
    if groups == [] then []
    else
      var n := |groups| - 1;
      var archives := CompressedArchives(groups[..n], fs, stamp, runs);
      assert Count(n, (i: nat) => i < |groups[..n]| && GroupArchived(groups[..n][i], fs, runs(i)))
          == Count(n, (i: nat) => i < |groups| && GroupArchived(groups[i], fs, runs(i))) by {
        CountAgrees(groups, n, fs, runs);
      }
      archives + (if GroupArchived(groups[n], fs, runs(n)) then [GroupArchiveName(groups[n].0, stamp)] else [])
  }

  lemma {:induction false} CountAgrees(groups: seq<(string, seq<string>)>, n: nat, fs: FileSystem, runs: nat -> ArchiveRun)
    requires n < |groups|
    ensures Count(n, (i: nat) => i < |groups[..n]| && GroupArchived(groups[..n][i], fs, runs(i)))
         == Count(n, (i: nat) => i < |groups| && GroupArchived(groups[i], fs, runs(i)))
  {
    var p := (i: nat) => i < |groups[..n]| && GroupArchived(groups[..n][i], fs, runs(i));
    var q := (i: nat) => i < |groups| && GroupArchived(groups[i], fs, runs(i));
    CountPointwise(n, p, q);
  }

  lemma {:induction false} CountPointwise(n: nat, p: nat -> bool, q: nat -> bool)
    requires forall i: nat :: i < n ==> p(i) == q(i)
    ensures Count(n, p) == Count(n, q)
  {
    if n > 0 {
      CountPointwise(n - 1, p, q);
    }
  }

  /** Every archive is the name of an archived group with the run's one stamp, and a
      group with no existing path never yields one. */
  lemma {:induction false} CompressedArchiveOrigin(groups: seq<(string, seq<string>)>, fs: FileSystem, stamp: string,
                                                   runs: nat -> ArchiveRun, k: nat)
    requires k < |CompressedArchives(groups, fs, stamp, runs)|
    ensures exists i :: (0 <= i < |groups| && |ValidFiles(groups[i].1, fs)| > 0 && GroupArchived(groups[i], fs, runs(i)) &&
      CompressedArchives(groups, fs, stamp, runs)[k] == GroupArchiveName(groups[i].0, stamp))
  {
    var n := |groups| - 1;
    var prefix := CompressedArchives(groups[..n], fs, stamp, runs);
    if k < |prefix| {
      CompressedArchiveOrigin(groups[..n], fs, stamp, runs, k);
      var i :| 0 <= i < n && |ValidFiles(groups[..n][i].1, fs)| > 0 && GroupArchived(groups[..n][i], fs, runs(i)) &&
        prefix[k] == GroupArchiveName(groups[..n][i].0, stamp);
      assert groups[..n][i] == groups[i];
    }
  }

  /** One more group adds its archive, if it yields one. */
  lemma CompressedArchivesSnoc(groups: seq<(string, seq<string>)>, fs: FileSystem, stamp: string,
                               runs: nat -> ArchiveRun, n: nat)
    requires n < |groups|
    ensures CompressedArchives(groups[..n + 1], fs, stamp, runs) == CompressedArchives(groups[..n], fs, stamp, runs)
      + (if GroupArchived(groups[n], fs, runs(n)) then [GroupArchiveName(groups[n].0, stamp)] else [])
  {
    assert groups[..n + 1][..n] == groups[..n];
  }

  /** Whether index i names a group of `groups` that yields an archive. */
  function ArchivedAt(groups: seq<(string, seq<string>)>, fs: FileSystem, runs: nat -> ArchiveRun): nat -> bool
  {
    (i: nat) => i < |groups| && GroupArchived(groups[i], fs, runs(i))
  }

  /** The archive name of the group at index i. */
  function ArchiveNameAt(groups: seq<(string, seq<string>)>, stamp: string): nat -> string
  {
    (i: nat) => if i < |groups| then GroupArchiveName(groups[i].0, stamp) else ""
  }

  /** The archives of the first n groups are the names of the archived groups below
      n, in group order. */
  lemma {:induction false} ArchivesOfPrefixInOrder(groups: seq<(string, seq<string>)>, fs: FileSystem,
                                                   stamp: string, runs: nat -> ArchiveRun, n: nat)
    requires n <= |groups|
    ensures CompressedArchives(groups[..n], fs, stamp, runs)
         == Picked(n, ArchivedAt(groups, fs, runs), ArchiveNameAt(groups, stamp))
  {
    if n > 0 {
      ArchivesOfPrefixInOrder(groups, fs, stamp, runs, n - 1);
      CompressedArchivesSnoc(groups, fs, stamp, runs, n - 1);
    }
  }

  /** The archives follow the group order, one per archived group: they are the names
      of the groups `Indices` picks out, which are exactly the groups whose archive
      succeeds, in increasing order. */
  lemma CompressedArchivesInGroupOrder(groups: seq<(string, seq<string>)>, fs: FileSystem,
                                       stamp: string, runs: nat -> ArchiveRun)
    ensures CompressedArchives(groups, fs, stamp, runs)
         == Map(Indices(|groups|, ArchivedAt(groups, fs, runs)), ArchiveNameAt(groups, stamp))
  {
    ArchivesOfPrefixInOrder(groups, fs, stamp, runs, |groups|);
    PickedIndices(|groups|, ArchivedAt(groups, fs, runs), ArchiveNameAt(groups, stamp));
    assert groups[..|groups|] == groups;
  }

  /** A group whose archive succeeds has its archive in the result, whatever happened
      to the other groups. */
  lemma {:induction false} ArchivedGroupIncluded(groups: seq<(string, seq<string>)>, fs: FileSystem, stamp: string,
                                                 runs: nat -> ArchiveRun, i: nat)
    requires i < |groups| && GroupArchived(groups[i], fs, runs(i))
    ensures GroupArchiveName(groups[i].0, stamp) in CompressedArchives(groups, fs, stamp, runs)
  {
    var n := |groups| - 1;
    if i < n {
      ArchivedGroupIncluded(groups[..n], fs, stamp, runs, i);
      assert groups[..n][i] == groups[i];
    }
  }

  /** `compressGroups`: one archive per group, in the order of the group entries; groups
      without an existing path are skipped, failed archives are reported and skipped,
      and every name carries the stamp taken once at the start. */
  method CompressGroups(groups: seq<(string, seq<string>)>, fs: FileSystem, iso: string, runs: nat -> ArchiveRun)
    returns (backupFiles: seq<string>)
    requires forall i: nat :: AllPositive(runs(i).chunks)
    ensures backupFiles == CompressedArchives(groups, fs, FileStamp(iso), runs)
    ensures |backupFiles| <= |groups|
  {
    var timestamp := FileStamp(iso);
    backupFiles := [];
    for i := 0 to |groups|
      invariant backupFiles == CompressedArchives(groups[..i], fs, timestamp, runs)
    {
      assert groups[..i + 1][..i] == groups[..i];
      var (groupName, files) := groups[i];
      var validFiles := ValidFiles(files, fs);
      if |validFiles| > 0 {
        var outputFile := GroupArchiveName(groupName, timestamp);
        var result, _, _ := CreateTarGz(validFiles, outputFile, fs, runs(i));
        if result.Ok? {
          backupFiles := backupFiles + [outputFile];
        }
      }
    }
    assert groups[..|groups|] == groups;
  }
}
