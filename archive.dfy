/**
 * `main` (media_archive.py:85-108): refuse to run inside the archive folder,
 * create the archive, scan, write the metadata, then process every record.
 * The working directory is a parameter; the run's outcome is the trace of
 * effects it asks for.
 */
module Archive {
  import opened Wrappers
  import opened Seqs
  import opened PyStr
  import opened PosixPath
  import opened Scan
  import opened Naming
  import opened Process

  const ArchiveFolder: string := "Media-archive"
  const MetadataFile: string := "metadata.json"

  /** `os.path.join(root_dir, "Media-archive")` */
  function ShadowRoot(rootDir: string): (r: string)
    ensures EndsWith(r, ArchiveFolder)
  {
    Join(rootDir, ArchiveFolder)
  }

  /** The guard: a plain suffix test on the working directory. */
  predicate InArchiveFolder(rootDir: string) {
    EndsWith(rootDir, ArchiveFolder)
  }

  datatype RunResult =
    | StoppedInArchive          // the error message and `exit()`, before any effect
    | Completed(effects: seq<Effect>)

  /** What a run does before processing: create the archive folder, then write the metadata. */
  function Prologue(shadowRoot: string, mediaFiles: seq<MediaRecord>): (r: seq<Effect>)
    ensures Attempts(r) == [] && Reports(r) == []
  {
    var create, write := [MakeDirs(shadowRoot)], [WriteMetadata(Join(shadowRoot, MetadataFile), mediaFiles)];
    assert create[..0] == [] && write[..0] == [];
    AttemptsAppend(create, write);
    ReportsAppend(create, write);
    create + write
  }

  /** What a run asks for, from the working directory and what the walk and probes report. */
  function RunTrace(rootDir: string, walk: seq<WalkEntry>, guess: string -> Option<string>,
                    stat: string -> FileStat, fails: Effect -> bool): RunResult
  {
    if InArchiveFolder(rootDir) then StoppedInArchive
    else
      var shadowRoot := ShadowRoot(rootDir);
      var mediaFiles := Scanned(walk, guess, stat);
      Completed(Prologue(shadowRoot, mediaFiles) + ProcessAll(mediaFiles, rootDir, shadowRoot, fails))
  }

  /** The loop of `main`: each record handed to `process_media` in turn, after the trace so far. */
  method ProcessRecords(effects0: seq<Effect>, mediaFiles: seq<MediaRecord>, rootDir: string,
                        shadowRoot: string, fails: Effect -> bool)
    returns (effects: seq<Effect>)
    ensures effects == effects0 + ProcessAll(mediaFiles, rootDir, shadowRoot, fails)
  {
    effects := effects0;
    var i := 0;
    assert mediaFiles[..0] == [];
    while i < |mediaFiles|
      invariant 0 <= i <= |mediaFiles|
      invariant effects == effects0 + ProcessAll(mediaFiles[..i], rootDir, shadowRoot, fails)
    {
      ProcessAllStep(effects0, effects, mediaFiles, i, rootDir, shadowRoot, fails);
      effects := effects + ProcessMedia(mediaFiles[i], rootDir, shadowRoot, fails);
      i := i + 1;
    }
    assert mediaFiles[..i] == mediaFiles;
  }

  /** `main` itself: the guard, the archive folder, the scan, the metadata, then the loop. */
  method Run(rootDir: string, walk: seq<WalkEntry>, guess: string -> Option<string>,
             stat: string -> FileStat, fails: Effect -> bool)
    returns (result: RunResult)
    ensures result == RunTrace(rootDir, walk, guess, stat, fails)
  {
    var shadowRoot := Join(rootDir, ArchiveFolder);
    if EndsWith(rootDir, ArchiveFolder) {
      return StoppedInArchive;
    }
    var effects := [MakeDirs(shadowRoot)];
    var mediaFiles := GetMediaFilesMetadata(walk, guess, stat);
    var metadataFilePath := Join(shadowRoot, MetadataFile);
    effects := effects + [WriteMetadata(metadataFilePath, mediaFiles)];
    assert effects == Prologue(shadowRoot, mediaFiles);
    effects := ProcessRecords(effects, mediaFiles, rootDir, shadowRoot, fails);
    return Completed(effects);
  }

  /**
   * The guard stops a run exactly in a folder whose name ends in
   * "Media-archive"; otherwise the archive folder is created first and the
   * metadata is written before any transcoder call.
   */
  lemma RunOrder(rootDir: string, walk: seq<WalkEntry>, guess: string -> Option<string>,
                 stat: string -> FileStat, fails: Effect -> bool)
    ensures RunTrace(rootDir, walk, guess, stat, fails).StoppedInArchive? <==> InArchiveFolder(rootDir)
    ensures !InArchiveFolder(rootDir) ==>
              var effects := RunTrace(rootDir, walk, guess, stat, fails).effects;
              |effects| >= 2 && effects[0] == MakeDirs(ShadowRoot(rootDir))
              && effects[1] == WriteMetadata(Join(ShadowRoot(rootDir), MetadataFile),
                                             Scanned(walk, guess, stat))
              && Attempts(effects) == Attempts(effects[2..])
  {
    if !InArchiveFolder(rootDir) {
      var shadowRoot := ShadowRoot(rootDir);
      var mediaFiles := Scanned(walk, guess, stat);
      var prologue := Prologue(shadowRoot, mediaFiles);
      var rest := ProcessAll(mediaFiles, rootDir, shadowRoot, fails);
      var effects := RunTrace(rootDir, walk, guess, stat, fails).effects;
      assert effects == prologue + rest;
      assert effects[2..] == rest;
      AttemptsAppend(prologue, rest);
    }
  }

  /**
   * A completed run calls a transcoder once per metadata record, in metadata
   * order, whichever of those calls raise.
   */
  lemma RunProcessesEveryRecord(rootDir: string, walk: seq<WalkEntry>, guess: string -> Option<string>,
                                stat: string -> FileStat, fails: Effect -> bool)
    requires !InArchiveFolder(rootDir)
    ensures CallsMatch(Attempts(RunTrace(rootDir, walk, guess, stat, fails).effects),
                       Scanned(walk, guess, stat), rootDir, ShadowRoot(rootDir))
  {
    var records := Scanned(walk, guess, stat);
    var shadowRoot := ShadowRoot(rootDir);
    var prologue := Prologue(shadowRoot, records);
    var rest := ProcessAll(records, rootDir, shadowRoot, fails);
    assert RunTrace(rootDir, walk, guess, stat, fails).effects == prologue + rest;
    AttemptsAppend(prologue, rest);
    ScannedAllProcessable(walk, guess, stat);
    OneAttemptPerRecord(records, rootDir, shadowRoot, fails);
  }

  /** A completed run prints one report per raising transcoder call, naming its file, in metadata order. */
  lemma RunReportsFailures(rootDir: string, walk: seq<WalkEntry>, guess: string -> Option<string>,
                           stat: string -> FileStat, fails: Effect -> bool)
    requires !InArchiveFolder(rootDir)
    ensures Reports(RunTrace(rootDir, walk, guess, stat, fails).effects)
            == FailureReports(Calls(Scanned(walk, guess, stat), rootDir, ShadowRoot(rootDir)), fails)
  {
    var records := Scanned(walk, guess, stat);
    var shadowRoot := ShadowRoot(rootDir);
    var prologue := Prologue(shadowRoot, records);
    var rest := ProcessAll(records, rootDir, shadowRoot, fails);
    assert RunTrace(rootDir, walk, guess, stat, fails).effects == prologue + rest;
    ReportsAppend(prologue, rest);
    ReportsAreFailedCalls(records, rootDir, shadowRoot, fails);
  }

  /** Each metadata record's transcoder call is one of a completed run's calls. */
  lemma RunCallOf(rootDir: string, walk: seq<WalkEntry>, guess: string -> Option<string>,
                  stat: string -> FileStat, fails: Effect -> bool, r: MediaRecord)
    returns (i: nat)
    requires !InArchiveFolder(rootDir) && r in Scanned(walk, guess, stat)
    ensures var attempts := Attempts(RunTrace(rootDir, walk, guess, stat, fails).effects);
            i < |attempts| && Transcode(r, rootDir, ShadowRoot(rootDir)) == Some(attempts[i])
  {
    var records := Scanned(walk, guess, stat);
    i :| i < |records| && records[i] == r;
    RunProcessesEveryRecord(rootDir, walk, guess, stat, fails);
  }

  /**
   * Where a run writes: for a media file `rest/file` of a walked folder below
   * the working directory, one transcoder call of the run reads that file and
   * writes its mirrored proxy `Media-archive + rest/<stem>-thumbnail<ext>`,
   * with the parameters of its kind.
   */
  lemma RunWritesMirroredProxies(rootDir: string, walk: seq<WalkEntry>, d: nat, k: nat, rest: string,
                                 guess: string -> Option<string>, stat: string -> FileStat,
                                 fails: Effect -> bool)
    returns (i: nat)
    requires !InArchiveFolder(rootDir) && NoTrailingSep(rootDir) && SubPath(rest)
    requires d < |walk| && walk[d].root == rootDir + rest
    requires k < |walk[d].files| && walk[d].files[k] != [] && Sep !in walk[d].files[k]
    requires IsMedia(guess(Join(walk[d].root, walk[d].files[k])))
    ensures var attempts := Attempts(RunTrace(rootDir, walk, guess, stat, fails).effects);
            var path := Join(walk[d].root, walk[d].files[k]);
            var proxy := ShadowRoot(rootDir) + rest + [Sep] + ThumbnailName(walk[d].files[k]);
            i < |attempts|
            && attempts[i] == if Dispatch(guess(path).value) == Image then ProcessImage(path, proxy)
                              else ProcessVideo(path, proxy)
  {
    var file := walk[d].files[k];
    var r := RecordFor(walk[d].root, file, guess, stat).value;
    ScannedContains(walk, d, k, guess, stat);
    i := RunCallOf(rootDir, walk, guess, stat, fails, r);
    ShadowRootLayout(rootDir);
    DispatchAgreesWithScan(r.filetype);
    TranscodeMirrors(r, rootDir, ShadowRoot(rootDir), rest, file);
  }

  /** The archive of the filesystem root, and the shadow path of a file directly in it. */
  lemma RootShadowPath(file: string)
    ensures ShadowRoot([Sep]) == [Sep] + ArchiveFolder
    ensures ShadowPath([Sep] + file, [Sep], ShadowRoot([Sep])) == [Sep] + ArchiveFolder + file
  {
    assert ArchiveFolder[0] != Sep;
    assert ([Sep] + file)[1..] == file;
    ShadowPathAtRoot([Sep] + file, [Sep], ShadowRoot([Sep]));
  }

  /**
   * At the filesystem root the guard passes, but the mirroring breaks: the
   * shadow path of `/file` is `/Media-archivefile`, whose directory is `/`, so
   * the proxy is planned beside the original instead of inside the archive.
   */
  lemma RootFolderProxiesBesideOriginals(file: string)
    requires file != [] && Sep !in file
    ensures !InArchiveFolder([Sep])
    ensures ShadowRoot([Sep]) == [Sep] + ArchiveFolder
    ensures ShadowPath([Sep] + file, [Sep], ShadowRoot([Sep])) == [Sep] + ArchiveFolder + file
    ensures ShadowDir([Sep] + file, [Sep], ShadowRoot([Sep])) == [Sep]
    ensures ThumbnailPath([Sep] + file, file, [Sep], ShadowRoot([Sep])) == [Sep] + ThumbnailName(file)
  {
    RootShadowPath(file);
    assert Sep !in ArchiveFolder;
    DirnameAtTop(ArchiveFolder + file);
    assert [Sep] + ArchiveFolder + file == [Sep] + (ArchiveFolder + file);
    assert ThumbnailName(file)[0] != Sep;
  }

  /** Below a root without a trailing separator, the archive is the `Media-archive` child. */
  lemma ShadowRootLayout(rootDir: string)
    requires NoTrailingSep(rootDir)
    ensures ShadowRoot(rootDir) == rootDir + [Sep] + ArchiveFolder
    ensures Dirname(ShadowRoot(rootDir)) == rootDir
    ensures Basename(ShadowRoot(rootDir)) == ArchiveFolder
    ensures NoTrailingSep(ShadowRoot(rootDir))
  {
    JoinInsertsSep(rootDir, ArchiveFolder);
    JoinSplit(rootDir, ArchiveFolder);
  }

  /** The guard is a suffix test: a folder merely named like "OldMedia-archive" trips it too. */
  lemma GuardTripsOnSuffix(prefix: string)
    ensures InArchiveFolder(prefix + ArchiveFolder)
    ensures InArchiveFolder(ShadowRoot(prefix))
  {
    assert (prefix + ArchiveFolder)[|prefix|..] == ArchiveFolder;
  }

  /**
   * ... and it misses every folder below the archive whose own name does
   * not end in "Media-archive".
   */
  lemma GuardMissesSubfolders(rootDir: string, sub: string)
    requires sub != [] && Sep !in sub && !EndsWith(sub, ArchiveFolder)
    ensures !InArchiveFolder(ShadowRoot(rootDir) + [Sep] + sub)
  {
    assert Sep !in ArchiveFolder;
    SuffixStopsAtSep(ShadowRoot(rootDir), sub, ArchiveFolder);
  }

  /** A suffix without a separator that the last component lacks is not a suffix of the path. */
  lemma SuffixStopsAtSep(head: string, sub: string, suffix: string)
    requires Sep !in sub && Sep !in suffix && !EndsWith(sub, suffix)
    ensures !EndsWith(head + [Sep] + sub, suffix)
  {
    var p := head + [Sep] + sub;
    if |suffix| <= |p| {
      var window := p[|p| - |suffix|..];
      if |sub| >= |suffix| {
        assert window == sub[|sub| - |suffix|..];
      } else {
        var k := |suffix| - |sub| - 1;
        assert window[k] == p[|head|] == Sep;
        assert suffix[k] in suffix;
      }
    }
  }

  /**
   * A file `rest/file` below the archive folder gets its proxy planned one
   * level deeper, under `Media-archive/Media-archive`.
   */
  lemma ArchiveProxyNested(rootDir: string, rest: string, file: string)
    requires NoTrailingSep(rootDir) && SubPath(rest) && file != [] && Sep !in file
    ensures ThumbnailPath(Join(ShadowRoot(rootDir) + rest, file), file, rootDir, ShadowRoot(rootDir))
            == ShadowRoot(ShadowRoot(rootDir)) + rest + [Sep] + ThumbnailName(file)
  {
    var shadowRoot := ShadowRoot(rootDir);
    ShadowRootLayout(rootDir);
    ShadowRootLayout(shadowRoot);
    var below := [Sep] + ArchiveFolder + rest;
    assert SubPath(below);
    AppendAssoc4(rootDir, [Sep], ArchiveFolder, rest);
    ThumbnailMirrors(rootDir, shadowRoot, below, file);
    AppendAssoc4(shadowRoot, [Sep], ArchiveFolder, rest);
  }

  /**
   * Nothing is pruned from the walk: a media file inside the archive folder
   * gets a record like any other, and its proxy is planned under
   * `Media-archive/Media-archive`.
   */
  lemma ArchiveFilesAreReprocessed(rootDir: string, walk: seq<WalkEntry>, d: nat, k: nat,
                                   rest: string, guess: string -> Option<string>,
                                   stat: string -> FileStat)
    returns (r: MediaRecord)
    requires NoTrailingSep(rootDir) && SubPath(rest)
    requires d < |walk| && walk[d].root == ShadowRoot(rootDir) + rest
    requires k < |walk[d].files| && walk[d].files[k] != [] && Sep !in walk[d].files[k]
    requires IsMedia(guess(Join(walk[d].root, walk[d].files[k])))
    ensures r in Scanned(walk, guess, stat)
    ensures r.originalPath == Join(walk[d].root, walk[d].files[k])
    ensures ThumbnailPath(r.originalPath, r.filename, rootDir, ShadowRoot(rootDir))
            == ShadowRoot(ShadowRoot(rootDir)) + rest + [Sep] + ThumbnailName(walk[d].files[k])
  {
    var file := walk[d].files[k];
    r := RecordFor(walk[d].root, file, guess, stat).value;
    ScannedContains(walk, d, k, guess, stat);
    ArchiveProxyNested(rootDir, rest, file);
  }
}
