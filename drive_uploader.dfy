/** Uploading artifacts to Google Drive (lib/DriveUploader.js). The Drive API is given
    by a script per upload call: the response of each `files.create` attempt and the
    answer of each `refreshToken` the retry asks for. The local files are a map from
    path to their stat size and the chunk sizes their read stream delivers. */
module DriveUpload {
  import opened Util
  import DatabaseExport
  import FileCompression

  // ---------------------------------------------------------------------------
  // MIME type by extension
  // ---------------------------------------------------------------------------

  lemma NoSlashConcat(a: string, b: string)
    requires '/' !in a && '/' !in b
    ensures '/' !in a + b
  {
    forall i | 0 <= i < |a + b|
      ensures (a + b)[i] != '/'
    {
      if i < |a| {
        assert a[i] in a;
      } else {
        assert b[i - |a|] in b;
      }
    }
  }

  /** Position of the last '.' of s, or -1 when there is none. */
  function LastDot(s: string): (k: int)
    ensures -1 <= k < |s|
    ensures k >= 0 ==> s[k] == '.'
    ensures forall j :: k < j < |s| ==> s[j] != '.'
  {
    if s == [] then -1
    else if s[|s| - 1] == '.' then |s| - 1
    else LastDot(s[..|s| - 1])
  }

  /** `path.extname` for POSIX paths: from the last '.' of the basename to its end, or
      "" when the basename has no '.', starts with its only leading '.', or is "..". */
  function Extname(path: string): (ext: string)
    ensures ext == [] || (ext[0] == '.' && '.' !in ext[1..] && '/' !in ext)
  {
    var b := Basename(path);
    var k := LastDot(b);
    if k <= 0 || b == ".." then ""
    else
      assert forall j :: 0 <= j < |b[k..][1..]| ==> b[k..][1..][j] == b[k + 1 + j];
      assert forall c :: c in b[k..] ==> c in b;
      b[k..]
  }

  /** The last '.' is the one after which no '.' follows. */
  lemma {:induction false} LastDotAt(s: string, k: nat)
    requires k < |s| && s[k] == '.'
    requires forall j :: k < j < |s| ==> s[j] != '.'
    ensures LastDot(s) == k
  {
    if k < |s| - 1 {
      LastDotAt(s[..|s| - 1], k);
    }
  }

  /** A name without '/' that is a non-empty stem, a '.', and a non-empty word without
      '.' has that word as its extension. */
  lemma ExtnameOfName(stem: string, word: string)
    requires stem != [] && word != []
    requires '/' !in stem && '/' !in word && '.' !in word
    ensures Extname(stem + "." + word) == "." + word
  {
    var dot := ".";
    var name := stem + dot + word;
    NoSlashConcat(stem, dot);
    NoSlashConcat(stem + dot, word);
    BasenameOfName(name);
    forall j | |stem| < j < |name|
      ensures name[j] != '.'
    {
      assert name[j] == word[j - |stem| - 1];
      assert word[j - |stem| - 1] in word;
    }
    LastDotAt(name, |stem|);
    assert name[|stem|..] == dot + word;
  }

  /** ASCII lower-casing of one character. */
  function LowerChar(c: char): char
  {
    if 'A' <= c <= 'Z' then (c as int + 32) as char else c
  }

  /** `String.prototype.toLowerCase` on ASCII letters. */
  function Lower(s: string): (r: string)
    ensures |r| == |s|
    ensures forall i :: 0 <= i < |s| ==> r[i] == LowerChar(s[i])
  {
    if s == [] then [] else [LowerChar(s[0])] + Lower(s[1..])
  }

  /** The table of `getMimeType`. */
  const MimeTypes: map<string, string> := map[
    ".gz" := "application/gzip",
    ".sql" := "application/sql",
    ".tar" := "application/x-tar",
    ".tgz" := "application/gzip",
    ".sql.gz" := "application/gzip"]

  const DefaultMimeType: string := "application/octet-stream"

  /** The type the table gives an extension, after lower-casing it. */
  function MimeTypeOfExtension(ext: string): (mime: string)
    ensures mime == DefaultMimeType || mime in MimeTypes.Values
  {
    var key := Lower(ext);
    if key in MimeTypes then MimeTypes[key] else DefaultMimeType
  }

  /** `getMimeType`: decided by the extension of the path alone. */
  function MimeType(filePath: string): (mime: string)
  {
    MimeTypeOfExtension(Extname(filePath))
  }

  /** The '.sql.gz' entry of the table is dead: an extension holds a single '.', so no
      path's lower-cased extension is '.sql.gz'. */
  lemma SqlGzKeyUnreachable(filePath: string)
    ensures Lower(Extname(filePath)) != ".sql.gz"
  {
    var ext := Extname(filePath);
    if |ext| == 7 {
      assert ext[4] in ext[1..];
      assert Lower(ext)[4] == LowerChar(ext[4]);
    }
  }

  /** A name ending in '.<word>' gets the type of the extension '.<word>'. */
  lemma MimeTypeOfName(stem: string, word: string)
    requires stem != [] && word != []
    requires '/' !in stem && '/' !in word && '.' !in word
    ensures MimeType(stem + "." + word) == MimeTypeOfExtension("." + word)
  {
    ExtnameOfName(stem, word);
  }

  /** The whole of `getMimeType`: '.gz' and '.tgz' are gzip, '.sql' is SQL, '.tar' is
      tar, in any letter case, and every other extension (the table's '.sql.gz'
      included) gets the default. */
  lemma MimeTypeCases(filePath: string)
    ensures var key := Lower(Extname(filePath));
      MimeType(filePath) ==
        if key == ".gz" || key == ".tgz" then "application/gzip"
        else if key == ".sql" then "application/sql"
        else if key == ".tar" then "application/x-tar"
        else DefaultMimeType
  {
    SqlGzKeyUnreachable(filePath);
    TableCases(Lower(Extname(filePath)));
  }

  lemma TableCases(key: string)
    requires key != ".sql.gz"
    ensures (if key in MimeTypes then MimeTypes[key] else DefaultMimeType) ==
      if key == ".gz" || key == ".tgz" then "application/gzip"
      else if key == ".sql" then "application/sql"
      else if key == ".tar" then "application/x-tar"
      else DefaultMimeType
  {
  }

  lemma GzExtensionMime()
    ensures MimeTypeOfExtension(".gz") == "application/gzip"
  {
    var ext := ".gz";
    assert Lower(ext) == ext;
    assert ext in MimeTypes;
  }

  lemma SqlExtensionMime()
    ensures MimeTypeOfExtension(".sql") == "application/sql"
  {
    var ext := ".sql";
    assert Lower(ext) == ext;
    assert ext in MimeTypes;
    assert MimeTypes[ext] == "application/sql";
  }

  lemma StampHasNoSlash(iso: string)
    requires '/' !in iso
    ensures '/' !in FileStamp(iso)
  {
    var ts := FileStamp(iso);
    forall i | 0 <= i < |ts|
      ensures ts[i] != '/'
    {
      assert iso[i] in iso;
    }
  }

  /** Individual dumps are uploaded as 'application/sql'. */
  lemma DumpUploadedAsSql(dbName: string, iso: string)
    requires '/' !in dbName && '/' !in iso
    ensures MimeType(DatabaseExport.DumpFileName(dbName, FileStamp(iso))) == "application/sql"
  {
    var ts := FileStamp(iso);
    StampHasNoSlash(iso);
    var prefix, dash, word := "db-", "-", "sql";
    var stem := prefix + dbName + dash + ts;
    NoSlashConcat(prefix, dbName);
    NoSlashConcat(prefix + dbName, dash);
    NoSlashConcat(prefix + dbName + dash, ts);
    var name := DatabaseExport.DumpFileName(dbName, ts);
    assert name == stem + "." + word;
    MimeTypeOfName(stem, word);
    SqlExtensionMime();
  }

  /** Group archives are uploaded as 'application/gzip' (their extension is '.gz'). */
  lemma ArchiveUploadedAsGzip(groupName: string, iso: string)
    requires '/' !in groupName && '/' !in iso
    ensures MimeType(FileCompression.GroupArchiveName(groupName, FileStamp(iso))) == "application/gzip"
  {
    var ts := FileStamp(iso);
    StampHasNoSlash(iso);
    var dash, tar, word := "-", ".tar", "gz";
    var stem := groupName + dash + ts + tar;
    NoSlashConcat(groupName, dash);
    NoSlashConcat(groupName + dash, ts);
    NoSlashConcat(groupName + dash + ts, tar);
    assert FileCompression.GroupArchiveName(groupName, ts) == stem + "." + word;
    MimeTypeOfName(stem, word);
    GzExtensionMime();
  }

  // ---------------------------------------------------------------------------
  // One upload with token-refresh retries
  // ---------------------------------------------------------------------------

  /** What `files.create` returns: the created file, or an error message. */
  datatype DriveFile = DriveFile(name: string, size: nat)

  /** A failure also records how many chunks of the file's read stream reached the
      `data` handler before the call failed: the client may give up before it has
      read the whole body, for instance when its own token refresh fails. */
  datatype ApiResponse = Created(file: DriveFile) | Failed(message: string, delivered: nat)

  /** The chunks an attempt's stream delivers: all of them when the file is created,
      otherwise the ones read before the failure. */
  function Delivered(response: ApiResponse, chunkCount: nat): (d: nat)
    ensures d <= chunkCount
    ensures response.Created? ==> d == chunkCount
  {
    if response.Created? || response.delivered >= chunkCount then chunkCount else response.delivered
  }

  /** The chunks delivered over a run of attempts. */
  function DeliveredSum(responses: seq<ApiResponse>, chunkCount: nat): (total: nat)
    ensures total <= |responses| * chunkCount
  {
    if responses == [] then 0
    else Delivered(responses[0], chunkCount) + DeliveredSum(responses[1..], chunkCount)
  }

  /** The metadata sent with an upload; a parent of None is JavaScript's undefined. */
  datatype FileMetadata = FileMetadata(name: string, parents: seq<Option<string>>)

  datatype UploadRequest = UploadRequest(metadata: FileMetadata, mimeType: string)

  /** The request `uploadFile` sends for a path while the configured folder is folderId. */
  function RequestFor(filePath: string, folderId: Option<string>): (request: UploadRequest)
    ensures '/' !in request.metadata.name && |request.metadata.parents| == 1
  {
    UploadRequest(FileMetadata(Basename(filePath), [folderId]), MimeType(filePath))
  }

  /** Errors whose message names a token or authentication problem trigger a refresh. */
  predicate IsAuthError(message: string)
  {
    Contains(message, "token") || Contains(message, "authentication")
  }

  /** The script of one `uploadFile` call: the response of each attempt in order, and
      what each `refreshToken` between attempts returns. */
  datatype UploadScript = UploadScript(responses: seq<ApiResponse>, refreshes: seq<bool>)

  /** The script ends the recursion: some attempt succeeds, fails without an auth
      error, or fails with one after which the refresh fails. A script where every
      refresh succeeds and every attempt fails with an auth error forever is not one. */
  predicate Completes(responses: seq<ApiResponse>, refreshes: seq<bool>)
    decreases |responses|
  {
    |responses| > 0 &&
    (responses[0].Created? || !IsAuthError(responses[0].message) ||
     (|refreshes| > 0 && (!refreshes[0] || Completes(responses[1..], refreshes[1..]))))
  }

  /** How many `files.create` attempts one `uploadFile` makes. */
  function AttemptsMade(responses: seq<ApiResponse>, refreshes: seq<bool>): (n: nat)
    requires Completes(responses, refreshes)
    ensures 1 <= n <= |responses|
    decreases |responses|
  {
    if responses[0].Created? || !IsAuthError(responses[0].message) || !refreshes[0] then 1
    else 1 + AttemptsMade(responses[1..], refreshes[1..])
  }

  /** What `uploadFile` resolves with, or the message it rejects with. A script that
      runs out before the recursion ends, which `Completes` rules out, reads as a
      failure with an empty message. */
  function UploadOutcome(responses: seq<ApiResponse>, refreshes: seq<bool>): Result<DriveFile, string>
    decreases |responses|
  {
    if responses == [] then Err("")
    else if responses[0].Created? then Ok(responses[0].file)
    else if IsAuthError(responses[0].message) && |refreshes| > 0 && refreshes[0] then
      UploadOutcome(responses[1..], refreshes[1..])
    else Err(responses[0].message)
  }

  /** The outcome is decided by the last attempt made, and every attempt before it
      failed with an auth error after which the token refresh succeeded: a non-auth
      error, or an auth error whose refresh fails, is rethrown without a retry. */
  lemma {:induction false} UploadOutcomeShape(responses: seq<ApiResponse>, refreshes: seq<bool>)
    requires Completes(responses, refreshes)
    ensures var n := AttemptsMade(responses, refreshes);
      (UploadOutcome(responses, refreshes) == if responses[n - 1].Created? then Ok(responses[n - 1].file)
                                              else Err(responses[n - 1].message)) &&
      (forall j :: 0 <= j < n - 1 ==>
         j < |refreshes| && responses[j].Failed? && IsAuthError(responses[j].message) && refreshes[j]) &&
      (responses[n - 1].Failed? && IsAuthError(responses[n - 1].message) ==> n - 1 < |refreshes| && !refreshes[n - 1])
    decreases |responses|
  {
    if !(responses[0].Created? || !IsAuthError(responses[0].message) || !refreshes[0]) {
      var tail, tailRefreshes := responses[1..], refreshes[1..];
      UploadOutcomeShape(tail, tailRefreshes);
      var m := AttemptsMade(tail, tailRefreshes);
      var n := AttemptsMade(responses, refreshes);
      assert n == m + 1;
      assert responses[n - 1] == tail[m - 1];
      assert UploadOutcome(responses, refreshes) == UploadOutcome(tail, tailRefreshes);
      forall j | 0 <= j < n - 1
        ensures j < |refreshes| && responses[j].Failed? && IsAuthError(responses[j].message) && refreshes[j]
      {
        if j > 0 {
          assert responses[j] == tail[j - 1] && refreshes[j] == tailRefreshes[j - 1];
        }
      }
      if responses[n - 1].Failed? && IsAuthError(responses[n - 1].message) {
        assert refreshes[n - 1] == tailRefreshes[m - 1];
      }
    }
  }

  /** The percents one `uploadFile` call reports: each attempt reports, with percents
      against the stat size (capped at 95), the chunks its stream delivered, and 100
      follows only the attempt whose create succeeds. */
  function UploadReports(size: nat, chunks: seq<nat>, responses: seq<ApiResponse>, refreshes: seq<bool>)
    : (reports: seq<int>)
    requires AllPositive(chunks) && Completes(responses, refreshes)
    ensures forall i :: 0 <= i < |reports| ==> 0 <= reports[i] <= 100
    ensures 100 in reports <==> UploadOutcome(responses, refreshes).Ok?
    ensures UploadOutcome(responses, refreshes).Ok? ==> reports[|reports| - 1] == 100
    decreases |responses|
  {
    var streamed := StreamPercents(chunks, size)[..Delivered(responses[0], |chunks|)];
    assert 100 !in streamed;
    if responses[0].Created? then
      assert UploadOutcome(responses, refreshes).Ok?;
      streamed + [100]
    else if IsAuthError(responses[0].message) && refreshes[0] then
      var tail, tailRefreshes := responses[1..], refreshes[1..];
      assert UploadOutcome(responses, refreshes) == UploadOutcome(tail, tailRefreshes);
      var more := UploadReports(size, chunks, tail, tailRefreshes);
      assert (streamed + more)[|streamed| ..] == more;
      streamed + more
    else
      assert UploadOutcome(responses, refreshes).Err? && AttemptsMade(responses, refreshes) == 1;
      streamed
  }

  /** Each attempt made reports one percent per chunk its stream delivered, so at most
      one per chunk of the file, and a success adds the final 100; when every failed
      attempt read the whole file, that is exactly one report per chunk per attempt. */
  lemma {:induction false} UploadReportsLength(size: nat, chunks: seq<nat>, responses: seq<ApiResponse>,
                                               refreshes: seq<bool>)
    requires AllPositive(chunks) && Completes(responses, refreshes)
    ensures var n, ok := AttemptsMade(responses, refreshes), if UploadOutcome(responses, refreshes).Ok? then 1 else 0;
      |UploadReports(size, chunks, responses, refreshes)| == DeliveredSum(responses[..n], |chunks|) + ok &&
      |UploadReports(size, chunks, responses, refreshes)| <= n * |chunks| + ok &&
      ((forall j :: 0 <= j < n && responses[j].Failed? ==> responses[j].delivered >= |chunks|) ==>
         |UploadReports(size, chunks, responses, refreshes)| == n * |chunks| + ok)
    decreases |responses|
  {
    var n := AttemptsMade(responses, refreshes);
    var first := Delivered(responses[0], |chunks|);
    if !responses[0].Created? && IsAuthError(responses[0].message) && refreshes[0] {
      var tail, tailRefreshes := responses[1..], refreshes[1..];
      UploadReportsLength(size, chunks, tail, tailRefreshes);
      var a := AttemptsMade(tail, tailRefreshes);
      assert n == 1 + a;
      assert responses[..n][1..] == tail[..a];
      assert DeliveredSum(responses[..n], |chunks|) == first + DeliveredSum(tail[..a], |chunks|);
      assert UploadOutcome(responses, refreshes) == UploadOutcome(tail, tailRefreshes);
      assert |UploadReports(size, chunks, responses, refreshes)| ==
        first + |UploadReports(size, chunks, tail, tailRefreshes)|;
      SuccessorTimes(a, |chunks|);
      if forall j :: 0 <= j < n && responses[j].Failed? ==> responses[j].delivered >= |chunks| {
        assert first == |chunks|;
        forall j | 0 <= j < a && tail[j].Failed?
          ensures tail[j].delivered >= |chunks|
        {
          assert tail[j] == responses[j + 1];
        }
      }
    } else {
      assert n == 1;
      assert responses[..n][1..] == [];
    }
  }

  lemma SuccessorTimes(a: nat, c: nat)
    ensures (1 + a) * c == c + a * c
  {
  }

  /** `uploadFile`: sends the request for the current folder, streams the file (a
      failed attempt reports only the chunks it delivered), and on an auth error
      retries after a successful token refresh. */
  method UploadFile(filePath: string, folderId: Option<string>, size: nat, chunks: seq<nat>,
                    responses: seq<ApiResponse>, refreshes: seq<bool>)
    returns (result: Result<DriveFile, string>, request: UploadRequest, reports: seq<int>)
    requires AllPositive(chunks) && Completes(responses, refreshes)
    ensures result == UploadOutcome(responses, refreshes)
    ensures request == RequestFor(filePath, folderId)
    ensures request.metadata == FileMetadata(Basename(filePath), [folderId])
    ensures reports == UploadReports(size, chunks, responses, refreshes)
    decreases |responses|
  {
    request := RequestFor(filePath, folderId);
    var streamed := StreamProgress(chunks, size);
    var shown := streamed[..Delivered(responses[0], |chunks|)];
    match responses[0]
    case Created(file) =>
      reports := shown + [100];
      result := Ok(file);
    case Failed(message, _) =>
      reports := shown;
      result := Err(message);
      if IsAuthError(message) && refreshes[0] {
        var retried, _, more := UploadFile(filePath, folderId, size, chunks, responses[1..], refreshes[1..]);
        assert UploadOutcome(responses, refreshes) == retried;
        result := retried;
        reports := reports + more;
      }
  }

  // ---------------------------------------------------------------------------
  // The batch with the root-folder fallback
  // ---------------------------------------------------------------------------

  /** The `googleDrive` section of the configuration, shared with the rest of the
      program and written by the upload batch. */
  class DriveSettings {
    var folderId: Option<string>

    constructor(folderId: Option<string>)
      ensures this.folderId == folderId
    {
      this.folderId := folderId;
    }
  }

  /** A local file as the uploader sees it: its stat size and its read stream's chunks. */
  datatype LocalFile = LocalFile(size: nat, chunks: seq<nat>)

  /** The script of every upload call: the file's index in the batch and the parent
      folder sent pick the responses (the file fixes the rest of the request). */
  type DriveScript = (nat, Option<string>) -> UploadScript

  ghost predicate WellFormed(disk: map<string, LocalFile>, drive: DriveScript)
  {
    (forall p :: p in disk ==> AllPositive(disk[p].chunks)) &&
    (forall i, folderId :: Completes(drive(i, folderId).responses, drive(i, folderId).refreshes))
  }

  /** What `String(folderId)` looks like inside a template or `includes`. */
  function FolderText(folderId: Option<string>): string
  {
    match folderId
    case None => "undefined"
    case Some(id) => id
  }

  /** The outcome of the upload call for file i while the folder is folderId. */
  function Attempt(drive: DriveScript, i: nat, folderId: Option<string>): Result<DriveFile, string>
  {
    var script := drive(i, folderId);
    UploadOutcome(script.responses, script.refreshes)
  }

  /** The failure that sends a file to the root fallback: the message names a missing
      file and contains the folder id read at the start of the batch. */
  predicate TriggersFallback(message: string, batchFolderId: Option<string>)
  {
    Contains(message, "File not found") && Contains(message, FolderText(batchFolderId))
  }

  datatype UploadState = UploadState(successCount: nat, folderId: Option<string>)

  /** One iteration of the batch for file i. */
  function UploadStep(state: UploadState, i: nat, file: string, disk: map<string, LocalFile>,
                      batchFolderId: Option<string>, drive: DriveScript): (next: UploadState)
    ensures file !in disk ==> next == state
    ensures state.successCount <= next.successCount <= state.successCount + (if file in disk then 1 else 0)
    ensures next.folderId == state.folderId || next.folderId == None
    // an upload to the current folder that succeeds is counted, and the folder is kept
    ensures file in disk && Attempt(drive, i, state.folderId).Ok? ==>
      next == UploadState(state.successCount + 1, state.folderId)
    // a failed upload is counted only through a root fallback, which runs only when
    // the error names a missing file and the batch's folder id
    ensures next.successCount > state.successCount ==>
      Attempt(drive, i, state.folderId).Ok? ||
      (TriggersFallback(Attempt(drive, i, state.folderId).error, batchFolderId) && Attempt(drive, i, None).Ok?)
    // the folder is cleared only by a root fallback that failed
    ensures next.folderId != state.folderId ==>
      file in disk && Attempt(drive, i, state.folderId).Err? &&
      TriggersFallback(Attempt(drive, i, state.folderId).error, batchFolderId) && Attempt(drive, i, None).Err?
  {
    if file !in disk then state
    else
      var primary := Attempt(drive, i, state.folderId);
      if primary.Ok? then UploadState(state.successCount + 1, state.folderId)
      else if !TriggersFallback(primary.error, batchFolderId) then state
      else if Attempt(drive, i, None).Ok? then UploadState(state.successCount + 1, state.folderId)
      else UploadState(state.successCount, None)
  }

  /** The batch state after the first n files, starting from no successes and the
      configured folder. */
  function UploadLoop(files: seq<string>, disk: map<string, LocalFile>, batchFolderId: Option<string>,
                      drive: DriveScript, n: nat): (state: UploadState)
    requires n <= |files|
    ensures state.successCount <= Count(n, (i: nat) => i < |files| && files[i] in disk)
  {
    if n == 0 then UploadState(0, batchFolderId)
    else UploadStep(UploadLoop(files, disk, batchFolderId, drive, n - 1), n - 1, files[n - 1], disk, batchFolderId, drive)
  }

  /** The fallback for file i ran and failed, leaving the folder undefined. */
  predicate FallbackFailedAt(files: seq<string>, disk: map<string, LocalFile>, batchFolderId: Option<string>,
                             drive: DriveScript, i: nat)
    requires i < |files|
  {
    var before := UploadLoop(files, disk, batchFolderId, drive, i);
    var primary := Attempt(drive, i, before.folderId);
    files[i] in disk && primary.Err? && TriggersFallback(primary.error, batchFolderId) &&
    Attempt(drive, i, None).Err?
  }

  /** File i is counted as uploaded when the folder is still the batch's own: it
      exists, and either its upload succeeds or the folder is reported missing and the
      upload to the root succeeds. */
  predicate Uploaded(files: seq<string>, disk: map<string, LocalFile>, batchFolderId: Option<string>,
                     drive: DriveScript, i: nat)
    requires i < |files|
  {
    var primary := Attempt(drive, i, batchFolderId);
    files[i] in disk &&
    (primary.Ok? || (TriggersFallback(primary.error, batchFolderId) && Attempt(drive, i, None).Ok?))
  }

  /** When no fallback fails, the batch's successCount is exactly the number of files
      uploaded, to the folder or to the root. */
  lemma {:induction false} UploadLoopCounts(files: seq<string>, disk: map<string, LocalFile>,
                                            batchFolderId: Option<string>, drive: DriveScript, n: nat)
    requires n <= |files|
    requires forall i :: 0 <= i < n ==> !FallbackFailedAt(files, disk, batchFolderId, drive, i)
    ensures UploadLoop(files, disk, batchFolderId, drive, n).successCount ==
      Count(n, (i: nat) => i < |files| && Uploaded(files, disk, batchFolderId, drive, i))
  {
    if n > 0 {
      UploadLoopCounts(files, disk, batchFolderId, drive, n - 1);
      FolderRestoredWithoutFailedFallback(files, disk, batchFolderId, drive, n - 1);
    }
  }

  /** Once a fallback fails the folder stays undefined for the rest of the batch: the
      later files are sent with an undefined parent and the setting is left undefined. */
  lemma {:induction false} FailedFallbackClearsFolder(files: seq<string>, disk: map<string, LocalFile>,
                                                      batchFolderId: Option<string>, drive: DriveScript, i: nat, n: nat)
    requires i < n <= |files|
    requires FallbackFailedAt(files, disk, batchFolderId, drive, i)
    ensures UploadLoop(files, disk, batchFolderId, drive, n).folderId == None
  {
    if n > i + 1 {
      FailedFallbackClearsFolder(files, disk, batchFolderId, drive, i, n - 1);
    }
  }

  /** Without a failed fallback the folder setting is what it was: a successful
      fallback restores the original id. */
  lemma {:induction false} FolderRestoredWithoutFailedFallback(files: seq<string>, disk: map<string, LocalFile>,
                                                               batchFolderId: Option<string>, drive: DriveScript, n: nat)
    requires n <= |files|
    requires forall i :: 0 <= i < n ==> !FallbackFailedAt(files, disk, batchFolderId, drive, i)
    ensures UploadLoop(files, disk, batchFolderId, drive, n).folderId == batchFolderId
  {
    if n > 0 {
      FolderRestoredWithoutFailedFallback(files, disk, batchFolderId, drive, n - 1);
      assert !FallbackFailedAt(files, disk, batchFolderId, drive, n - 1);
    }
  }

  datatype UploadBatchError = NotAuthenticated

  /** `uploadFiles`: an empty list resolves with 0 without authenticating; otherwise
      authentication must succeed, then each existing file is uploaded, falling back to
      the root folder when the folder is reported missing, and the successes counted. */
  method UploadFiles(settings: DriveSettings, files: seq<string>, disk: map<string, LocalFile>,
                     authenticated: bool, drive: DriveScript)
    returns (outcome: Result<nat, UploadBatchError>)
    requires WellFormed(disk, drive)
    modifies settings
    ensures files == [] ==> outcome == Ok(0) && settings.folderId == old(settings.folderId)
    ensures files != [] && !authenticated ==> outcome == Err(NotAuthenticated) && settings.folderId == old(settings.folderId)
    ensures files != [] && authenticated ==>
      var final := UploadLoop(files, disk, old(settings.folderId), drive, |files|);
      outcome == Ok(final.successCount) && settings.folderId == final.folderId
  {
    if |files| == 0 {
      return Ok(0);
    }
    if !authenticated {
      return Err(NotAuthenticated);
    }
    var folderId := settings.folderId;
    var successCount := 0;
    for i := 0 to |files|
      invariant UploadLoop(files, disk, folderId, drive, i) == UploadState(successCount, settings.folderId)
    {
      var file := files[i];
      if file !in disk {
        continue;
      }
      var script := drive(i, settings.folderId);
      var result, _, _ := UploadFile(file, settings.folderId, disk[file].size, disk[file].chunks,
                                     script.responses, script.refreshes);
      if result.Ok? {
        successCount := successCount + 1;
      } else if Contains(result.error, "File not found") && Contains(result.error, FolderText(folderId)) {
        var originalFolderId := settings.folderId;
        settings.folderId := None;
        var rootScript := drive(i, settings.folderId);
        var rootResult, _, _ := UploadFile(file, settings.folderId, disk[file].size, disk[file].chunks,
                                           rootScript.responses, rootScript.refreshes);
        if rootResult.Ok? {
          successCount := successCount + 1;
          settings.folderId := originalFolderId;
        }
      }
    }
    return Ok(successCount);
  }

  /** At most one success per existing file, so never more than the list's length. */
  lemma UploadCountBounded(files: seq<string>, disk: map<string, LocalFile>, batchFolderId: Option<string>,
                           drive: DriveScript)
    ensures UploadLoop(files, disk, batchFolderId, drive, |files|).successCount <= |files|
  {
  }
}
