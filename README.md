# media-archive, modelled in Dafny

`media_archive.py` builds a "shadow" archive of a photo and video folder. It
is started inside the folder. It refuses to run when the folder's path ends
in `Media-archive`. Otherwise it:

- creates `Media-archive/` beside the media;
- walks the whole tree and records every file whose guessed MIME type starts
  with `image` or `video`;
- writes that list to `Media-archive/metadata.json`;
- asks PIL or moviepy to write a small proxy of each recorded file at the
  mirrored place below `Media-archive/`.

For an image, the proxy is bounded to 1440×1440, saved optimised at quality
75, with `_optimize=True_quality=75` inserted before the last dot of its
path. For a video, the proxy is re-encoded at width 320 with libx264 and
aac. An exception in either transcoder is printed, and the run goes on.

The model follows the source's own structure, module by module:

| file | module | models |
|---|---|---|
| `wrappers.dfy` | `Wrappers` | `Option` |
| `seqs.dfy` | `Seqs` | concatenation regrouping and a filter-map (`Somes`) with its index lemmas |
| `py_str.dfy` | `PyStr` | `str.startswith`, `endswith`, `find`, `replace(old, new, 1)` and `rsplit(sep, 1)`, with CPython's semantics |
| `posix_path.dfy` | `PosixPath` | `os.path.join`, `dirname` and `splitext` of `posixpath`, and `basename`, which the program does not call, as the inverse `dirname` is proved against |
| `scan.dfy` | `Scan` | `get_media_files_metadata`: the walk as nested loops, against the `Scanned` specification |
| `naming.dfy` | `Naming` | the shadow path, the `-thumbnail` name, the proxy path and the image save path |
| `process.dfy` | `Process` | `process_media`, `process_image` and `process_video` as effects in a trace |
| `archive.dfy` | `Archive` | `main`: the guard, the prologue, and the loop as a method |

The outside world becomes parameters:

- the working directory is `rootDir`;
- the output of `os.walk` is a sequence of `(root, dirs, files)` entries, in walk order;
- `mimetypes.guess_type` is a function `guess`;
- `getmtime`, `getctime` and `getsize` are a function `stat`;
- whether a transcoder call raises is a predicate `fails`.

A run's outcome is the trace of effects it asks for, in order:

- directory creations;
- the metadata write;
- transcoder calls, with the parameters the source passes;
- the failure reports printed by the `except` branches.

Paths use `/` as their only separator, as on POSIX. The model assumes this
and does not cover Windows paths.

### Behaviours of the code worth noting

The model follows the code as written, including these behaviours:

- **No pruning.** The walk does not skip the archive folder. Files already
  in `Media-archive/` are recorded again, and their proxies are planned one
  level deeper, under `Media-archive/Media-archive/`. `ArchiveFilesAreReprocessed`
  proves this.
- **The guard is a suffix test.** `root_dir.endswith("Media-archive")`
  trips on a folder merely named `OldMedia-archive`, and misses every folder
  below the archive whose own name does not end in `Media-archive`
  (`GuardTripsOnSuffix`, `GuardMissesSubfolders`). It is not an "is or is
  inside" test.
- **The MIME prefixes are `image` and `video`, without the `/`.** A type
  such as `imagex/foo` would pass the filter.
- **The video width is 320.** The clip is resized to width 320 and written
  with `libx264` and `aac`; no constant-rate factor and no preset are passed.
- **The metadata is a list** in walk order, not keyed by path. Records hold
  the full `original_path`.
- **The image proxy has the infix.** It is saved as
  `<stem>-thumbnail_optimize=True_quality=75<ext>`, not at `thumbnail_path`
  itself, which is `<stem>-thumbnail<ext>`. Here and below, `<ext>` is the
  dot-led extension `splitext` returns, such as `.jpg`.
- **No failure counts.** Failures are printed one by one. There is no
  summary of processed, skipped and failed files.
- **Errors outside the two transcoders are not caught.** A failing `stat`
  or `makedirs` ends the run.
- **At the filesystem root the mirroring breaks.** Started in `/`, the
  guard passes and `shadow_root` is `/Media-archive`, but `replace` turns
  `/a.jpg` into `/Media-archivea.jpg`, whose directory is `/`. The proxy
  `/a-thumbnail.jpg` is planned beside the original, outside the archive
  (`RootFolderProxiesBesideOriginals`). The layout lemmas
  (`ShadowPathBelowRoot`, `ThumbnailMirrors`, `ThumbnailPathsDistinct`,
  `TranscodeMirrors`, `ShadowRootLayout`, `ArchiveProxyNested`,
  `ArchiveFilesAreReprocessed`, `RunWritesMirroredProxies`) therefore
  require a working directory without a trailing `/`, which `os.getcwd`
  returns everywhere except at `/`.
  Deeper files fare no better: `/home/a.jpg` becomes
  `/Media-archivehome/a.jpg`, a sibling of the archive, so every proxy of a
  run started at `/` is planned outside `/Media-archive`.

## Model

| member | source | states |
|---|---|---|
| PyStr.FindFrom | media_archive.py:70 | the index found from `i` is an occurrence with none between `i` and it; None means no occurrence at or after `i` |
| PyStr.Find | media_archive.py:70 | the result is the leftmost occurrence of the pattern; None means the pattern occurs nowhere |
| PyStr.ReplaceFirst | media_archive.py:70 | `replace(old, new, 1)` leaves a string without the pattern unchanged and otherwise swaps exactly the leftmost occurrence |
| PyStr.ReplaceFirstAtStart | media_archive.py:70 | a string that begins with the pattern gets exactly that prefix replaced |
| PyStr.LastIndexOf | media_archive.py:41 | the index holds the character and none follows it; None exactly when the character is absent |
| PyStr.RSplitOnce | media_archive.py:41 | `rsplit(sep, 1)` splits exactly when `sep` occurs; the parts rejoin around `sep` to the input, and the tail has no `sep` |
| PyStr.RSplitOnceUnique | media_archive.py:41 | any split at a `sep` with no `sep` after it is the split `rsplit` makes |
| PosixPath.NameStart | media_archive.py:71 | the base name starts right after the last `/`, and contains no `/` |
| PosixPath.RStrip | media_archive.py:71 | the result is a prefix without the trailing character, and only that character was removed |
| PosixPath.Dirname | media_archive.py:71 | a path without `/` has an empty directory name |
| PosixPath.Join | media_archive.py:14 | the joined path ends with the second part, and starts with the first unless the second is absolute |
| PosixPath.JoinShape | media_archive.py:14 | an absolute second part is the whole result; otherwise the result is the first part, the second part, and one `/` between them exactly when the first part is non-empty and does not end in `/` |
| PosixPath.DirnameAtTop | media_archive.py:71 | a name directly below `/` has `/` as its directory |
| PosixPath.JoinSplit | media_archive.py:71-76 | joining a directory without a trailing `/` and a plain name is undone by `dirname` and `basename` |
| PosixPath.Splitext | media_archive.py:75 | the parts concatenate to the path; the extension is empty, or a single dot-led tail with no `/` |
| PosixPath.SplitextExtension | media_archive.py:75 | an extension is found exactly when the base name has a dot after a non-dot character (leading dots do not count) |
| PosixPath.SplitextAt | media_archive.py:75 | the cut is at the last dot whenever a non-dot of the base name precedes it |
| Scan.IsMedia | media_archive.py:17 | definition, no contract: the filter `mime_type and (startswith('image') or startswith('video'))`; `RecordFor`, `DispatchAgreesWithScan` and `ScannedRecordsAreMedia` state what it keeps |
| Scan.RecordFor | media_archive.py:14-26 | a file has a record exactly when its guessed type exists and starts with `image` or `video`; the record holds its joined path, name and type |
| Scan.DirRecords | media_archive.py:13-26 | definition, no contract: the records of one directory's files, in listing order; its properties are in `DirRecordsAppend`, `DirRecordsContains` and `DirRecordsSource` |
| Scan.Scanned | media_archive.py:11-26 | definition, no contract: the records of the whole walk, in walk order, against which `GetMediaFilesMetadata` is proved; its properties are in `ScannedAppend`, `ScannedContains`, `ScannedSource` and `ScannedRecordsAreMedia` |
| Scan.GetMediaFilesMetadata | media_archive.py:9-28 | the nested loops return exactly `Scanned(walk)`: every directory, no pruning, files in listing order |
| Scan.FileStep | media_archive.py:13-26 | one more file of a directory appends that file's record, if any, to the list so far |
| Scan.DirectoryStep | media_archive.py:11-26 | finishing a directory's file list gives the records of the walk up to and including it |
| Scan.DirRecordsAppend | media_archive.py:13-26 | a directory's listing in two parts yields the two parts' records, in order |
| Scan.ScannedAppend | media_archive.py:11-28 | a walk in two parts yields the two parts' records, in walk order |
| Scan.DirRecordsContains | media_archive.py:17-26 | every file whose type passes the filter has its record in its directory's list |
| Scan.DirRecordsSource | media_archive.py:17-26 | every record of a directory's list is the record of one of its files |
| Scan.ScannedContains | media_archive.py:11-26 | every media file of every visited directory has its record in the metadata |
| Scan.ScannedSource | media_archive.py:11-26 | every record of the metadata comes from one file of one visited directory |
| Scan.ScannedRecordsAreMedia | media_archive.py:17-26 | every record's type passes the filter, and its path joins its directory and its file name |
| Scan.SingleFile | media_archive.py:14-26 | one file alone yields one record when its type passes the filter, and none otherwise |
| Naming.ShadowPath | media_archive.py:70 | definition, no contract: `original_path.replace(root_dir, shadow_root, 1)`; its value is stated in `ShadowPathAtRoot`, `ShadowPathBelowRoot` and `RootShadowPath` |
| Naming.ShadowDir | media_archive.py:71 | definition, no contract: `os.path.dirname(shadow_path)`; its value is stated in `ThumbnailInShadowDir`, `ThumbnailMirrors` and `RootFolderProxiesBesideOriginals` |
| Naming.ShadowPathAtRoot | media_archive.py:70 | a path that begins with the root gets the root swapped for the shadow root |
| Naming.ThumbnailName | media_archive.py:75-76 | the proxy name is ten characters, the length of `-thumbnail`, longer than the file name, and has no `/` when the file name has none; its shape `stem + -thumbnail + ext` is in `ThumbnailNameSplit` |
| Naming.SplitextAfterSuffix | media_archive.py:75-76 | `<stem>-thumbnail<ext>` splits back into `<stem>-thumbnail` and `<ext>` |
| Naming.SplitextWithoutExtension | media_archive.py:75-76 | a name without an extension still has none after `-thumbnail` is appended |
| Naming.ThumbnailNameSplit | media_archive.py:75-76 | the proxy name keeps the file's own extension, and its stem is the file's stem plus `-thumbnail` |
| Naming.ThumbnailNameInjective | media_archive.py:75-76 | distinct file names get distinct proxy names |
| Naming.ThumbnailPath | media_archive.py:70-76 | the proxy path ends with the proxy name |
| Naming.ThumbnailInShadowDir | media_archive.py:71-76 | the proxy's directory is the shadow directory `process_media` creates, and its base name is the proxy name |
| Naming.JoinInsertsSep | media_archive.py:76 | joining onto a directory without a trailing `/` inserts exactly one `/` |
| Naming.ShadowPathBelowRoot | media_archive.py:70 | the shadow path of `root + rest/file` is `shadowRoot + rest/file` |
| Naming.ThumbnailMirrors | media_archive.py:70-76 | a file `rest/file` below the root gets its proxy at `rest/<stem>-thumbnail<ext>` below the shadow root |
| Naming.SplitAtLastSep | media_archive.py:76 | a path ending in `/name` determines its directory and its name |
| Naming.ThumbnailPathsDistinct | media_archive.py:70-76 | two distinct files below the root never share a proxy path |
| Naming.ImageSavePath | media_archive.py:41 | without a dot the path is kept; with one, the path after the last dot is kept |
| Naming.ImageSavePathAtLastDot | media_archive.py:41 | the infix goes right before the last dot of the whole path |
| Naming.ImageSavePathInjective | media_archive.py:41 | distinct proxy paths give distinct save paths |
| Naming.ImageInfixInDirectoryName | media_archive.py:41 | when only a directory name has a dot, the infix lands in that directory name and the base name is kept |
| Process.Dispatch | media_archive.py:79-82 | images are recognised by the `image` prefix first, and videos by `video` only otherwise |
| Process.DispatchAgreesWithScan | media_archive.py:79-82 | dispatch accepts exactly the MIME types the scan keeps |
| Process.ScannedRecordsAreProcessed | media_archive.py:79-82 | every metadata record reaches one of the two transcoders |
| Process.ProcessImage | media_archive.py:31-43 | definition, no contract: the `img.save` call, at `ImageSavePath(thumbnail_path)`, bounded to 1440x1440, optimised, quality 75; stated in `Transcode` and `TranscodeMirrors` |
| Process.ProcessVideo | media_archive.py:54-59 | definition, no contract: the resize to width 320 and `write_videofile` at `thumbnail_path` with `libx264` and `aac`; stated in `Transcode` and `TranscodeMirrors` |
| Process.Transcode | media_archive.py:31-82 | a call exists exactly for images and videos; it reads the record's own path and saves an image exactly for image types; an image is written at `ImageSavePath(thumbnail_path)` bounded to 1440x1440, optimised, quality 75; a video is written at `thumbnail_path` at width 320 with `libx264` and `aac` |
| Process.TranscodeMirrors | media_archive.py:70-82 | the call for a file `rest/file` below the root is exactly the image save or video write of that file onto `shadowRoot + rest/<stem>-thumbnail<ext>` |
| Process.Guarded | media_archive.py:31-61 | definition, no contract: the call inside `try`, followed by the printed report when it raises; its properties are in `GuardedTrace` |
| Process.GuardedTrace | media_archive.py:31-61 | a guarded call attempts its call exactly once; it has a second effect exactly when the call raised, and that effect is the report naming the original file |
| Process.ReportsAppend | media_archive.py:50-61 | the reports of a trace in two parts are the two parts' reports, in order |
| Process.FailureReportsAppend | media_archive.py:50-61 | the expected reports of calls in two parts are the two parts' expected reports, in order |
| Process.GuardedCallReports | media_archive.py:72-82 | a shadow-directory creation and a guarded call report exactly the raising call, naming its file |
| Process.GuardedCallTrace | media_archive.py:72-82 | a shadow-directory creation and a guarded call hold exactly the call's attempt, and the same effects without reports |
| Process.ProcessMedia | media_archive.py:65-82 | the shadow directory is created first; the only attempt is the record's own call; without reports the trace does not depend on failures; the only report is the one for that call, when it raises |
| Process.ProcessAll | media_archive.py:104-106 | definition, no contract: every record processed in turn; its properties are in `ProcessAllAppend`, `AttemptsAreCalls`, `ReportsAreFailedCalls` and `FailuresOnlyAddReports` |
| Process.ProcessAllAppend | media_archive.py:105-106 | processing a list in two parts is processing each part, in order |
| Process.ProcessAllStep | media_archive.py:105-106 | one more record's effects follow those of the records before it |
| Process.FailuresOnlyAddReports | media_archive.py:31-61 | whichever calls raise, the trace without reports is the same: a failure never stops or changes another file's processing |
| Process.ScannedAllProcessable | media_archive.py:79-82 | every record of the metadata is an image or a video |
| Process.AttemptsSnoc | media_archive.py:105-106 | one more record adds exactly its own transcoder call, if it has one |
| Process.AttemptsAreCalls | media_archive.py:104-106 | whichever calls raise, the transcoder calls of the loop are the records' calls, in record order |
| Process.ReportsAreFailedCalls | media_archive.py:50-106 | the loop prints exactly one report per raising call, naming that call's file, in record order, and no other |
| Process.CallsMatchRecords | media_archive.py:78-82 | for images and videos, the call at each index is that record's call, one per record |
| Process.OneAttemptPerRecord | media_archive.py:104-106 | for images and videos, the transcoder is called exactly once per record, in record order, with that record's call |
| Archive.ShadowRoot | media_archive.py:87 | the archive root ends with `Media-archive` |
| Archive.InArchiveFolder | media_archive.py:90 | definition, no contract: `root_dir.endswith("Media-archive")`; its behaviour is in `GuardTripsOnSuffix` and `GuardMissesSubfolders` |
| Archive.Prologue | media_archive.py:94-102 | creating the archive folder and writing the metadata call no transcoder and report nothing |
| Archive.RunTrace | media_archive.py:85-106 | definition, no contract: the guard, then the prologue and every record's processing, against which `Run` is proved; its properties are in `RunOrder`, `RunProcessesEveryRecord`, `RunReportsFailures` and `RunWritesMirroredProxies` |
| Archive.ProcessRecords | media_archive.py:104-106 | the loop appends every record's processing, in order, to the trace so far |
| Archive.Run | media_archive.py:85-108 | `main` produces exactly `RunTrace`: stopped by the guard, or the prologue followed by every record's processing |
| Archive.RunOrder | media_archive.py:89-106 | the run stops exactly when the guard trips; otherwise the archive folder is created, then the metadata is written, before any transcoder call |
| Archive.RunProcessesEveryRecord | media_archive.py:96-106 | a completed run calls a transcoder once per metadata record, in metadata order, whichever calls raise |
| Archive.RunReportsFailures | media_archive.py:50-106 | a completed run prints one report per raising transcoder call, naming its file, in metadata order, and no other |
| Archive.RunCallOf | media_archive.py:96-106 | each metadata record's transcoder call is one of a completed run's calls |
| Archive.RunWritesMirroredProxies | media_archive.py:9-106 | for a media file `rest/file` of a walked folder below the working directory, a completed run makes the call that reads it and writes `Media-archive + rest/<stem>-thumbnail<ext>`, with the image infix and parameters, or the video parameters |
| Archive.RootShadowPath | media_archive.py:70-87 | at `/`, the archive root is `/Media-archive` and a file `/file` has shadow path `/Media-archivefile` |
| Archive.RootFolderProxiesBesideOriginals | media_archive.py:70-90 | at `/`, the guard passes, the shadow directory of `/file` is `/` and its proxy is planned at `/<stem>-thumbnail<ext>`, outside the archive |
| Archive.ShadowRootLayout | media_archive.py:87 | below a root without a trailing `/`, the archive root is the `Media-archive` child: its dirname is the root and its basename is `Media-archive` |
| Archive.GuardTripsOnSuffix | media_archive.py:90 | any folder whose path ends in `Media-archive` trips the guard, the archive root included |
| Archive.GuardMissesSubfolders | media_archive.py:90 | a folder below the archive root does not trip the guard unless its own name ends in `Media-archive` |
| Archive.SuffixStopsAtSep | media_archive.py:90 | a suffix without `/` that the last path component lacks is not a suffix of the path |
| Archive.ArchiveProxyNested | media_archive.py:70-76 | a file below the archive root gets its proxy planned under `Media-archive/Media-archive` |
| Archive.ArchiveFilesAreReprocessed | media_archive.py:9-28 | a media file inside the archive folder is recorded like any other, and its proxy is planned one level deeper |

## Left out

- Decoding, resizing and encoding are left out. They belong to PIL and moviepy, and each call is an effect carrying the parameters the source passes. The aspect-ratio arithmetic of `Image.thumbnail` is not modelled.
- The contents of `os.walk`, `mimetypes.guess_type` and the stat functions are inputs. Symbolic links and the mimetypes database are not modelled. `os.walk` skips a directory it cannot list (its default `onerror=None`); the input walk covers this by leaving that directory out. Errors raised by `guess_type` and the stat functions are not modelled; in the source they end the run.
- `os.makedirs` and the metadata write are assumed to succeed. Their failures, which the source does not catch, are not modelled.
- The JSON text (`indent=4`) is not modelled. The write effect carries the record list.
- Timestamps are `real` values taken from `stat`. Floating-point rounding is not modelled.
- Printed messages are reduced to two things: a `ReportFailure` effect naming the failing file, and the `StoppedInArchive` result standing for the error message and `exit()`. The exception text and the final "Processing completed" line are not modelled.
- `os.getcwd` becomes the `rootDir` parameter. `/` is the only separator, so Windows path rules are not covered. Strings are sequences of characters, with no encoding or normalisation.
- PosixPath.Join: its own contract only states how the result begins and ends. The whole result in each of the three cases is stated in `JoinShape`.
- PosixPath.Dirname: its contract only states the no-separator case. The round trip with `Join` is proved separately in `JoinSplit`, and the behaviour on paths made only of separators is not stated.
- Naming.ThumbnailPath: its contract only states the name at the end. Its full shape is proved for files below the root in `ThumbnailMirrors`, `ThumbnailInShadowDir` and `ArchiveProxyNested`, and at `/` in `RootFolderProxiesBesideOriginals`.
