/** File-name patterns of the retention policy (lib/CleanupManager.js, matchesFilePattern).
    A pattern becomes a regular expression by two textual replacements (`*` to `.*`,
    then `?` to `.`) and is tested anchored at both ends. Nothing else is escaped, so a
    `.` in a pattern is the regular-expression wildcard, not a literal dot. */
module Glob {
  import opened Util

  /** `s.replace(/c/g, by)`: every occurrence of the character c becomes by. */
  function ReplaceAll(s: string, c: char, with: string): (t: string)
    ensures c !in with ==> c !in t
    ensures c !in s ==> t == s
  {
    if s == [] then []
    else (if s[0] == c then with else [s[0]]) + ReplaceAll(s[1..], c, with)
  }

  lemma {:induction false} ReplaceAllAppend(a: string, b: string, c: char, with: string)
    ensures ReplaceAll(a + b, c, with) == ReplaceAll(a, c, with) + ReplaceAll(b, c, with)
  {
    if a == [] {
      assert a + b == b;
    } else {
      assert (a + b)[1..] == a[1..] + b;
      ReplaceAllAppend(a[1..], b, c, with);
    }
  }

  /** The source text of the regular expression between `^` and `$`. */
  function RegexBody(pattern: string): string
  {
    ReplaceAll(ReplaceAll(pattern, '*', ".*"), '?', ".")
  }

  /** What each pattern character becomes after both replacements. */
  function Image(c: char): string
  {
    if c == '*' then ".*" else if c == '?' then "." else [c]
  }

  function Translate(p: string): string
  {
    if p == [] then [] else Image(p[0]) + Translate(p[1..])
  }

  /** The two sequential global replacements act character by character. */
  lemma {:induction false} RegexBodyIsTranslate(p: string)
    ensures RegexBody(p) == Translate(p)
  {
    if p != [] {
      var once := ReplaceAll(p, '*', ".*");
      var head := if p[0] == '*' then ".*" else [p[0]];
      assert once == head + ReplaceAll(p[1..], '*', ".*");
      ReplaceAllAppend(head, ReplaceAll(p[1..], '*', ".*"), '?', ".");
      assert ReplaceAll(head, '?', ".") == Image(p[0]) by {
        if p[0] == '*' {
          assert head == ['.'] + ['*'];
        } else {
          assert head == [p[0]];
        }
      }
      RegexBodyIsTranslate(p[1..]);
    }
  }

  /** One regular-expression atom against one character: `.` is any character
      except a line terminator, anything else is itself. */
  predicate AtomMatches(atom: char, c: char)
  {
    if atom == '.' then !IsLineTerminator(c) else atom == c
  }

  /** `new RegExp('^' + r + '$').test(s)` for a source r made of literal characters,
      `.` and postfix `*`, the only constructs a converted pattern of the allowed
      alphabet contains. */
  predicate RegexMatches(r: string, s: string)
    decreases |r|, |s|
  {
    if r == [] then s == []
    else if |r| >= 2 && r[1] == '*' then
      RegexMatches(r[2..], s) || (|s| > 0 && AtomMatches(r[0], s[0]) && RegexMatches(r, s[1..]))
    else
      |s| > 0 && AtomMatches(r[0], s[0]) && RegexMatches(r[1..], s[1..])
  }

  /** Glob semantics of a pattern, stated directly: `*` is any run of characters
      other than line terminators, `?` and `.` are any one such character, every
      other character is itself, and the match must cover the whole name. */
  predicate GlobMatches(p: string, s: string)
    decreases |p|, |s|
  {
    if p == [] then s == []
    else if p[0] == '*' then
      GlobMatches(p[1..], s) || (|s| > 0 && !IsLineTerminator(s[0]) && GlobMatches(p, s[1..]))
    else
      |s| > 0 && (if p[0] == '?' || p[0] == '.' then !IsLineTerminator(s[0]) else p[0] == s[0])
      && GlobMatches(p[1..], s[1..])
  }

  lemma TranslateHeadIsNotStar(p: string)
    ensures Translate(p) == [] || Translate(p)[0] != '*'
  {
  }

  /** The converted regular expression accepts exactly the names the glob reading accepts. */
  lemma {:induction false} TranslateAgrees(p: string, s: string)
    ensures RegexMatches(Translate(p), s) == GlobMatches(p, s)
    decreases |p|, |s|
  {
    if p != [] {
      var rest := Translate(p[1..]);
      TranslateHeadIsNotStar(p[1..]);
      if p[0] == '*' {
        var r := Translate(p);
        assert r == ".*" + rest;
        assert r[2..] == rest;
        TranslateAgrees(p[1..], s);
        if |s| > 0 {
          TranslateAgrees(p, s[1..]);
        }
      } else {
        var r := Translate(p);
        assert r == Image(p[0]) + rest && |Image(p[0])| == 1;
        assert r[1..] == rest;
        if |s| > 0 {
          TranslateAgrees(p[1..], s[1..]);
        }
      }
    }
  }

  /** `matchesFilePattern`: some pattern's anchored regular expression accepts the name. */
  function MatchesFilePattern(fileName: string, patterns: seq<string>): (r: bool)
    ensures r <==> exists i :: 0 <= i < |patterns| && GlobMatches(patterns[i], fileName)
    ensures patterns == [] ==> !r
  {
    if patterns == [] then false
    else
      RegexBodyIsTranslate(patterns[0]);
      TranslateAgrees(patterns[0], fileName);
      var rest := MatchesFilePattern(fileName, patterns[1..]);
      assert rest ==> exists i :: 0 <= i < |patterns| && GlobMatches(patterns[i], fileName) by {
        if rest {
          var i :| 0 <= i < |patterns[1..]| && GlobMatches(patterns[1..][i], fileName);
          assert GlobMatches(patterns[i + 1], fileName);
        }
      }
      RegexMatches(RegexBody(patterns[0]), fileName) || rest
  }

  /** `*` consumes any run of non-line-terminator characters, including the empty run. */
  lemma {:induction false} StarAbsorbs(rest: string, s: string, k: nat)
    requires k <= |s| && NoLineTerminators(s[..k]) && GlobMatches(rest, s[k..])
    ensures GlobMatches("*" + rest, s)
    decreases k
  {
    var p := "*" + rest;
    assert p[1..] == rest;
    if k > 0 {
      assert s[1..][..k - 1] == s[1..k];
      assert s[1..][k - 1..] == s[k..];
      assert !IsLineTerminator(s[..k][0]);
      StarAbsorbs(rest, s[1..], k - 1);
    } else {
      assert s[k..] == s;
    }
  }

  /** Conversely, every match of `*` splits the name at some run of non-line-terminators. */
  lemma {:induction false} StarSplits(rest: string, s: string) returns (k: nat)
    requires GlobMatches("*" + rest, s)
    ensures k <= |s| && NoLineTerminators(s[..k]) && GlobMatches(rest, s[k..])
    decreases |s|
  {
    var p := "*" + rest;
    assert p[1..] == rest;
    if GlobMatches(rest, s) {
      k := 0;
      assert s[k..] == s;
    } else {
      var k' := StarSplits(rest, s[1..]);
      k := k' + 1;
      assert s[1..][..k'] == s[1..k];
      assert s[1..][k'..] == s[k..];
      assert s[..k] == [s[0]] + s[1..k];
    }
  }

  /** Both directions of the meaning of `*`. */
  lemma StarMatchesAnyRun(rest: string, s: string)
    ensures GlobMatches("*" + rest, s) <==>
      exists k :: 0 <= k <= |s| && NoLineTerminators(s[..k]) && GlobMatches(rest, s[k..])
  {
    if GlobMatches("*" + rest, s) {
      var k := StarSplits(rest, s);
    }
    if exists k :: 0 <= k <= |s| && NoLineTerminators(s[..k]) && GlobMatches(rest, s[k..]) {
      var k :| 0 <= k <= |s| && NoLineTerminators(s[..k]) && GlobMatches(rest, s[k..]);
      StarAbsorbs(rest, s, k);
    }
  }

  /** Without `*`, each pattern character (`?` included) consumes exactly one character
      of the name, and the match is anchored: the lengths agree. */
  lemma {:induction false} StarFreeMatchLength(p: string, s: string)
    requires '*' !in p
    ensures GlobMatches(p, s) ==> |s| == |p|
  {
    if p != [] && s != [] {
      assert '*' !in p[1..];
      StarFreeMatchLength(p[1..], s[1..]);
    }
  }

  /** A pattern with no wildcard character (`*`, `?` or `.`) matches only itself. */
  lemma {:induction false} LiteralPatternMatchesOnlyItself(p: string, s: string)
    requires '*' !in p && '?' !in p && '.' !in p
    ensures GlobMatches(p, s) <==> s == p
  {
    if p != [] {
      assert '*' !in p[1..] && '?' !in p[1..] && '.' !in p[1..];
      if s != [] {
        LiteralPatternMatchesOnlyItself(p[1..], s[1..]);
        if s[0] == p[0] && s[1..] == p[1..] {
          assert s == [s[0]] + s[1..];
          assert p == [p[0]] + p[1..];
        }
      }
    }
  }

  /** A pattern without `*` matches itself when it has no line terminator. */
  lemma {:induction false} StarFreeMatchesItself(p: string)
    requires '*' !in p && NoLineTerminators(p)
    ensures GlobMatches(p, p)
  {
    if p != [] {
      assert '*' !in p[1..] && NoLineTerminators(p[1..]);
      StarFreeMatchesItself(p[1..]);
    }
  }

  /** A pattern that starts with literal characters matches only names that start
      with the same characters. */
  lemma {:induction false} LiteralPrefix(pre: string, p: string, s: string)
    requires forall i :: 0 <= i < |pre| ==> pre[i] != '*' && pre[i] != '?' && pre[i] != '.'
    ensures GlobMatches(pre + p, s) <==> |pre| <= |s| && s[..|pre|] == pre && GlobMatches(p, s[|pre|..])
  {
    if pre != [] {
      assert (pre + p)[0] == pre[0];
      assert (pre + p)[1..] == pre[1..] + p;
      if s != [] {
        LiteralPrefix(pre[1..], p, s[1..]);
        if |pre| <= |s| {
          assert s[1..][|pre| - 1..] == s[|pre|..];
          assert s[..|pre|] == [s[0]] + s[1..][..|pre| - 1];
          assert pre == [pre[0]] + pre[1..];
        }
      }
    } else {
      assert pre + p == p;
      assert s[..0] == pre && s[0..] == s;
    }
  }

  predicate IsLiteral(pre: string)
  {
    forall i :: 0 <= i < |pre| ==> pre[i] != '*' && pre[i] != '?' && pre[i] != '.'
  }

  /** A pattern `<pre>*<suf>` with literal pre accepts pre, then any run without line
      terminators, then any name suf matches. */
  lemma PrefixStarAccepts(pre: string, suf: string, x: string, y: string)
    requires IsLiteral(pre) && NoLineTerminators(x) && GlobMatches(suf, y)
    ensures GlobMatches(pre + "*" + suf, pre + x + y)
  {
    var s := x + y;
    assert s[..|x|] == x && s[|x|..] == y;
    StarAbsorbs(suf, s, |x|);
    LiteralPrefix(pre, "*" + suf, pre + s);
    assert pre + "*" + suf == pre + ("*" + suf);
    assert (pre + s)[|pre|..] == s && (pre + s)[..|pre|] == pre;
    assert pre + s == pre + x + y;
  }

  /** Every name a pattern `<pre>*<suf>` accepts starts with pre and ends with a part
      of the length of a star-free suf that suf accepts. */
  lemma PrefixStarShape(pre: string, suf: string, s: string)
    requires IsLiteral(pre) && '*' !in suf && GlobMatches(pre + ("*" + suf), s)
    ensures |s| >= |pre| + |suf| && s[..|pre|] == pre && GlobMatches(suf, s[|s| - |suf|..])
  {
    LiteralPrefix(pre, "*" + suf, s);
    var t := s[|pre|..];
    var k := StarSplits(suf, t);
    StarSuffixLength(suf, t, k);
    assert t[k..] == s[|s| - |suf|..];
  }

  /** After `*` absorbs k characters, a star-free rest consumes exactly the remainder. */
  lemma StarSuffixLength(suf: string, t: string, k: nat)
    requires '*' !in suf && k <= |t| && GlobMatches(suf, t[k..])
    ensures |t| == k + |suf|
  {
    StarFreeMatchLength(suf, t[k..]);
  }

  /** `db-*.sql` accepts every dump name `db-<x>.sql` whose middle has no line terminator. */
  lemma DbGlobAcceptsDumpNames(x: string)
    requires NoLineTerminators(x)
    ensures GlobMatches("db-*.sql", "db-" + x + ".sql")
  {
    StarFreeMatchesItself(".sql");
    PrefixStarAccepts("db-", ".sql", x, ".sql");
    assert "db-" + "*" + ".sql" == "db-*.sql";
  }

  /** Every name `db-*.sql` accepts starts with `db-` and ends with one character other
      than a line terminator followed by `sql`: the match is anchored at both ends, so
      `shop-2024.sql` and `db-shop-2024.sql.gz` are rejected. */
  lemma DbGlobShape(s: string)
    requires GlobMatches("db-*.sql", s)
    ensures |s| >= 7 && s[..3] == "db-" && s[|s| - 3..] == "sql" && !IsLineTerminator(s[|s| - 4])
  {
    var pre, suf := "db-", ".sql";
    DbGlobParts();
    PrefixStarShape(pre, suf, s);
    var u := s[|s| - 4..];
    DotSqlShape(u);
    assert u[1..] == s[|s| - 3..];
  }

  lemma DbGlobParts()
    ensures "db-*.sql" == "db-" + ("*" + ".sql") && IsLiteral("db-") && '*' !in ".sql"
  {
  }

  lemma DotSqlShape(u: string)
    requires GlobMatches(".sql", u)
    ensures |u| == 4 && !IsLineTerminator(u[0]) && u[1..] == "sql"
  {
    var p := ".sql";
    assert p[0] == '.' && p[1..] == "sql";
    assert GlobMatches("sql", u[1..]);
    LiteralPrefix("sql", "", u[1..]);
    assert "sql" + "" == "sql";
  }

  /** Because `.` reaches the regular expression unescaped, `db-*.sql` also accepts a
      name with any other character where the dot should be. */
  lemma DbGlobDotIsWildcard(x: string, c: char)
    requires NoLineTerminators(x) && !IsLineTerminator(c)
    ensures GlobMatches("db-*.sql", "db-" + x + ([c] + "sql"))
  {
    StarFreeMatchesItself("sql");
    assert GlobMatches(".sql", [c] + "sql") by {
      assert ".sql"[1..] == "sql";
      assert ([c] + "sql")[1..] == "sql";
    }
    PrefixStarAccepts("db-", ".sql", x, [c] + "sql");
    assert "db-" + "*" + ".sql" == "db-*.sql";
  }
}

/** Retention of remote backups and removal of local artifacts (lib/CleanupManager.js). */
module Cleanup {
  import opened Util
  import Glob

  /** A file of the remote folder, as the listing returns it (newest first). */
  datatype RemoteFile = RemoteFile(id: string, name: string, createdTime: int)

  /** The `cleanup` section of the configuration. */
  datatype CleanupConfig = CleanupConfig(
    enabled: bool,
    keepLast: nat,
    strategy: string,
    maxAgeDays: int,
    filePatterns: seq<string>)

  const MillisPerDay: int := 86400000

  /** `listBackupFiles`: a failed listing (authentication or API error) reads as empty. */
  function ListedFiles(listing: Option<seq<RemoteFile>>): seq<RemoteFile>
  {
    match listing
    case None => []
    case Some(files) => files
  }

  /** The listing restricted to names that match a pattern, in listing order. */
  function BackupFiles(files: seq<RemoteFile>, patterns: seq<string>): (r: seq<RemoteFile>)
    ensures IsSubsequence(r, files)
    ensures forall i :: 0 <= i < |r| ==> r[i] in files && Glob.MatchesFilePattern(r[i].name, patterns)
    ensures forall i :: 0 <= i < |files| && Glob.MatchesFilePattern(files[i].name, patterns) ==> files[i] in r
  {
    Filter(files, (f: RemoteFile) => Glob.MatchesFilePattern(f.name, patterns))
  }

  /** Pattern filtering is idempotent. */
  lemma BackupFilesIdempotent(files: seq<RemoteFile>, patterns: seq<string>)
    ensures BackupFiles(BackupFiles(files, patterns), patterns) == BackupFiles(files, patterns)
  {
    FilterIdempotent(files, (f: RemoteFile) => Glob.MatchesFilePattern(f.name, patterns));
  }

  /** An empty pattern list makes every file ineligible. */
  lemma {:induction false} NoPatternsNoBackupFiles(files: seq<RemoteFile>)
    ensures BackupFiles(files, []) == []
  {
    if files != [] {
      NoPatternsNoBackupFiles(files[1..]);
    }
  }

  /** The age branch runs only for strategy 'age' with a truthy (non-zero) maxAgeDays. */
  predicate UsesAgeStrategy(config: CleanupConfig)
  {
    config.strategy == "age" && config.maxAgeDays != 0
  }

  /** Entries created strictly before the cutoff, in listing order. */
  function SelectByAge(files: seq<RemoteFile>, cutoff: int): (r: seq<RemoteFile>)
    ensures IsSubsequence(r, files)
    ensures forall i :: 0 <= i < |r| ==> r[i] in files && r[i].createdTime < cutoff
    ensures forall i :: 0 <= i < |files| && files[i].createdTime < cutoff ==> files[i] in r
  {
    Filter(files, (f: RemoteFile) => f.createdTime < cutoff)
  }

  /** `files.slice(keepLast)`: every entry at index keepLast or later. */
  function SelectByCount(files: seq<RemoteFile>, keepLast: nat): (r: seq<RemoteFile>)
    ensures |r| == if keepLast <= |files| then |files| - keepLast else 0
    ensures forall i :: 0 <= i < |r| ==> r[i] == files[keepLast + i]
  {
    if keepLast <= |files| then files[keepLast..] else []
  }

  /** The entries selected for deletion: age when the age branch is taken, count otherwise. */
  function SelectForDeletion(files: seq<RemoteFile>, config: CleanupConfig, now: int): (r: seq<RemoteFile>)
    ensures UsesAgeStrategy(config) ==>
      forall f :: f in files ==> (f in r <==> f.createdTime < now - config.maxAgeDays * MillisPerDay)
    ensures !UsesAgeStrategy(config) ==>
      |r| == (if config.keepLast <= |files| then |files| - config.keepLast else 0) &&
      forall i :: 0 <= i < |r| ==> r[i] == files[config.keepLast + i]
    ensures forall i :: 0 <= i < |r| ==> r[i] in files
  {
    if UsesAgeStrategy(config) then SelectByAge(files, now - config.maxAgeDays * MillisPerDay)
    else SelectByCount(files, config.keepLast)
  }

  /** The listing's order: creation times never increase along the sequence. */
  predicate NewestFirst(files: seq<RemoteFile>)
  {
    forall i, j :: 0 <= i <= j < |files| ==> files[j].createdTime <= files[i].createdTime
  }

  /** On a newest-first listing, the count strategy deletes only entries no newer than
      any of the keepLast it keeps. */
  lemma CountDeletesOldest(files: seq<RemoteFile>, keepLast: nat, i: nat, j: nat)
    requires NewestFirst(files)
    requires i < |SelectByCount(files, keepLast)| && j < keepLast && j < |files|
    ensures SelectByCount(files, keepLast)[i].createdTime <= files[j].createdTime
  {
  }

  /** On a newest-first listing, the age strategy deletes a suffix of the listing. */
  lemma {:induction false} AgeDeletesSuffix(files: seq<RemoteFile>, cutoff: int)
    requires NewestFirst(files)
    ensures SelectByAge(files, cutoff) == files[|files| - |SelectByAge(files, cutoff)|..]
  {
    if files != [] {
      var keep := (f: RemoteFile) => f.createdTime < cutoff;
      if files[0].createdTime < cutoff {
        forall i | 0 <= i < |files|
          ensures keep(files[i])
        {
          assert files[i].createdTime <= files[0].createdTime;
        }
        FilterKeepsAll(files, keep);
      } else {
        var rest := files[1..];
        assert NewestFirst(rest) by {
          forall i, j | 0 <= i <= j < |rest|
            ensures rest[j].createdTime <= rest[i].createdTime
          {
            assert rest[i] == files[i + 1] && rest[j] == files[j + 1];
          }
        }
        AgeDeletesSuffix(rest, cutoff);
        assert SelectByAge(files, cutoff) == SelectByAge(rest, cutoff);
        var r := SelectByAge(rest, cutoff);
        assert rest[|rest| - |r|..] == files[|files| - |r|..];
      }
    }
  }

  /** The entries whose deletion the remote store confirmed, in order; deleteSucceeds(i)
      is the outcome of the i-th delete call. */
  function Confirmed(toDelete: seq<RemoteFile>, deleteSucceeds: nat -> bool): (r: seq<RemoteFile>)
    ensures |r| == Count(|toDelete|, deleteSucceeds)
    ensures forall k :: 0 <= k < |r| ==> r[k] in toDelete
  {
    if toDelete == [] then []
    else
      var n := |toDelete| - 1;
      assert forall k :: 0 <= k < n ==> toDelete[..n][k] == toDelete[k];
      Confirmed(toDelete[..n], deleteSucceeds) + (if deleteSucceeds(n) then [toDelete[n]] else [])
  }

  /** A failed delete does not stop the loop: every later confirmed deletion is kept. */
  lemma {:induction false} ConfirmedContainsEverySuccess(toDelete: seq<RemoteFile>, deleteSucceeds: nat -> bool, i: nat)
    requires i < |toDelete| && deleteSucceeds(i)
    ensures toDelete[i] in Confirmed(toDelete, deleteSucceeds)
  {
    var n := |toDelete| - 1;
    if i < n {
      assert toDelete[..n][i] == toDelete[i];
      ConfirmedContainsEverySuccess(toDelete[..n], deleteSucceeds, i);
    }
  }

  /** The delete loop of `cleanupRemote`: one delete call per selected entry, a failure
      is logged and skipped, and deletedCount counts confirmed deletions only. The
      reports are the percents passed to the progress tracker after each success. */
  method DeleteFiles(toDelete: seq<RemoteFile>, deleteSucceeds: nat -> bool)
    returns (deletedCount: nat, deleted: seq<RemoteFile>, reports: seq<int>)
    ensures deleted == Confirmed(toDelete, deleteSucceeds)
    ensures deletedCount == |deleted| == Count(|toDelete|, deleteSucceeds)
    ensures deletedCount <= |toDelete|
    ensures reports == LoopReports(|toDelete|, deleteSucceeds, |toDelete|)
    ensures forall j :: 0 <= j < |reports| ==> 0 <= reports[j] <= 100
  {
    deletedCount, deleted, reports := 0, [], [];
    var n := |toDelete|;
    for i := 0 to n
      invariant deleted == Confirmed(toDelete[..i], deleteSucceeds)
      invariant deletedCount == |deleted|
      invariant reports == LoopReports(n, deleteSucceeds, i)
    {
      assert toDelete[..i + 1][..i] == toDelete[..i];
      if deleteSucceeds(i) {
        deletedCount := deletedCount + 1;
        deleted := deleted + [toDelete[i]];
        RoundPercentAtMost100(i + 1, n);
        reports := reports + [RoundPercent(i + 1, n)];
      }
    }
    assert toDelete[..n] == toDelete;
  }

  /** What one `cleanupRemote` call did. */
  datatype CleanupReport =
    | Disabled
    | Cleaned(matched: seq<RemoteFile>, selected: seq<RemoteFile>, deleted: seq<RemoteFile>, deletedCount: nat)

  /** `cleanupRemote`: nothing is listed or deleted when disabled; otherwise the fresh
      listing is filtered by the patterns, the strategy selects, and the delete loop runs.
      It never fails: listing errors read as an empty listing. */
  method CleanupRemote(config: CleanupConfig, listing: Option<seq<RemoteFile>>, now: int, deleteSucceeds: nat -> bool)
    returns (report: CleanupReport)
    ensures !config.enabled <==> report.Disabled?
    ensures config.enabled ==>
      && report.matched == BackupFiles(ListedFiles(listing), config.filePatterns)
      && report.selected == SelectForDeletion(report.matched, config, now)
      && report.deleted == Confirmed(report.selected, deleteSucceeds)
      && report.deletedCount == |report.deleted| <= |report.selected|
    ensures report.Cleaned? ==>
      forall k :: 0 <= k < |report.deleted| ==>
        report.deleted[k] in ListedFiles(listing) &&
        Glob.MatchesFilePattern(report.deleted[k].name, config.filePatterns)
  {
    if !config.enabled {
      return Disabled;
    }
    var allFiles := ListedFiles(listing);
    var backupFiles := BackupFiles(allFiles, config.filePatterns);
    var filesToDelete := SelectForDeletion(backupFiles, config, now);
    if |filesToDelete| == 0 {
      return Cleaned(backupFiles, filesToDelete, [], 0);
    }
    var deletedCount, deleted, _ := DeleteFiles(filesToDelete, deleteSucceeds);
    report := Cleaned(backupFiles, filesToDelete, deleted, deletedCount);
  }

  /** `cleanupLocal`: each artifact that exists is removed; the counter grows only when
      the removal did not throw. present(i) is `existsSync` for the i-th file, removed(i)
      whether `fs.remove` succeeded. An iteration that throws reports no progress. */
  method CleanupLocal(files: seq<string>, present: nat -> bool, removed: nat -> bool)
    returns (cleanedCount: nat, reports: seq<int>)
    ensures cleanedCount == Count(|files|, (i: nat) => present(i) && removed(i))
    ensures cleanedCount <= |files|
    ensures files == [] ==> reports == []
    ensures reports == LoopReports(|files|, (i: nat) => !present(i) || removed(i), |files|)
  {
    cleanedCount, reports := 0, [];
    if |files| == 0 {
      return;
    }
    var n := |files|;
    for i := 0 to n
      invariant cleanedCount == Count(i, (i: nat) => present(i) && removed(i))
      invariant reports == LoopReports(n, (i: nat) => !present(i) || removed(i), i)
    {
      if present(i) {
        if removed(i) {
          cleanedCount := cleanedCount + 1;
        } else {
          continue;
        }
      }
      RoundPercentAtMost100(i + 1, n);
      reports := reports + [RoundPercent(i + 1, n)];
    }
  }
}
