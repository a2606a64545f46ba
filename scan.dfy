/**
 * `get_media_files_metadata` (media_archive.py:9-28): walk the tree below the
 * root and keep one record per file whose guessed MIME type starts with
 * "image" or "video". The directory walk is an input sequence in `os.walk`
 * order; `mimetypes.guess_type` and the `os.path.get*` attribute reads are
 * function parameters.
 */
module Scan {
  import opened Wrappers
  import opened Seqs
  import opened PyStr
  import opened PosixPath

  /** One `(root, dirs, files)` triple yielded by `os.walk`. */
  datatype WalkEntry = WalkEntry(root: string, dirs: seq<string>, files: seq<string>)

  /** What `getmtime`, `getctime` and `getsize` report for a path. */
  datatype FileStat = FileStat(modified: real, created: real, size: nat)

  /** The dictionary built for one media file. */
  datatype MediaRecord = MediaRecord(
    originalPath: string,
    filename: string,
    filetype: string,
    modified: real,
    created: real,
    size: nat)

  /** The scan's filter: a MIME type exists and starts with "image" or "video". */
  predicate IsMedia(mime: Option<string>) {
    mime.Some? && (StartsWith(mime.value, "image") || StartsWith(mime.value, "video"))
  }

  /** The record a file contributes, if its MIME type passes the filter. */
  function RecordFor(dir: string, file: string, guess: string -> Option<string>,
                     stat: string -> FileStat): (r: Option<MediaRecord>)
    ensures r.Some? <==> IsMedia(guess(Join(dir, file)))
    ensures r.Some? ==> r.value.originalPath == Join(dir, file)
    ensures r.Some? ==> r.value.filename == file
    ensures r.Some? ==> Some(r.value.filetype) == guess(Join(dir, file))
  {
    var path := Join(dir, file);
    var mime := guess(path);
    if IsMedia(mime) then
      var st := stat(path);
      Some(MediaRecord(path, file, mime.value, st.modified, st.created, st.size))
    else None
  }

  /** The records of the files of one directory, in listing order. */
  function DirRecords(dir: string, files: seq<string>, guess: string -> Option<string>,
                      stat: string -> FileStat): seq<MediaRecord>
  {
    if files == [] then []
    else DirRecords(dir, files[..|files| - 1], guess, stat)
         + AsSeq(RecordFor(dir, files[|files| - 1], guess, stat))
  }

  /** The metadata list of a whole walk: every directory, none skipped, in walk order. */
  function Scanned(walk: seq<WalkEntry>, guess: string -> Option<string>,
                   stat: string -> FileStat): seq<MediaRecord>
  {
    if walk == [] then []
    else Scanned(walk[..|walk| - 1], guess, stat)
         + DirRecords(walk[|walk| - 1].root, walk[|walk| - 1].files, guess, stat)
  }

  /** The scan loop itself: two nested loops appending to `metadata`. */
  method GetMediaFilesMetadata(walk: seq<WalkEntry>, guess: string -> Option<string>,
                               stat: string -> FileStat)
    returns (metadata: seq<MediaRecord>)
    ensures metadata == Scanned(walk, guess, stat)
  {
    metadata := [];
    var d := 0;
    while d < |walk|
      invariant 0 <= d <= |walk|
      invariant metadata == Scanned(walk[..d], guess, stat)
    {
      var root, files := walk[d].root, walk[d].files;
      var k := 0;
      while k < |files|
        invariant 0 <= k <= |files|
        invariant metadata == Scanned(walk[..d], guess, stat) + DirRecords(root, files[..k], guess, stat)
      {
        var file := files[k];
        var filePath := Join(root, file);
        var mimeType := guess(filePath);
        FileStep(Scanned(walk[..d], guess, stat), root, files, k, guess, stat);
        if IsMedia(mimeType) {
          var st := stat(filePath);
          metadata := metadata + [MediaRecord(filePath, file, mimeType.value, st.modified, st.created, st.size)];
        }
        k := k + 1;
      }
      DirectoryStep(walk, d, guess, stat);
      d := d + 1;
    }
    assert walk[..d] == walk;
  }

  /** One more file of the current directory appends its record, if any. */
  lemma FileStep(before: seq<MediaRecord>, dir: string, files: seq<string>, k: nat,
                 guess: string -> Option<string>, stat: string -> FileStat)
    requires k < |files|
    ensures before + DirRecords(dir, files[..k + 1], guess, stat)
            == before + DirRecords(dir, files[..k], guess, stat) + AsSeq(RecordFor(dir, files[k], guess, stat))
  {
    assert files[..k + 1][..k] == files[..k];
    AppendAssoc(before, DirRecords(dir, files[..k], guess, stat), AsSeq(RecordFor(dir, files[k], guess, stat)));
  }

  /** Finishing directory `d` gives the records of the first `d + 1` directories. */
  lemma DirectoryStep(walk: seq<WalkEntry>, d: nat, guess: string -> Option<string>, stat: string -> FileStat)
    requires d < |walk|
    ensures Scanned(walk[..d], guess, stat) + DirRecords(walk[d].root, walk[d].files[..|walk[d].files|], guess, stat)
            == Scanned(walk[..d + 1], guess, stat)
  {
    assert walk[d].files[..|walk[d].files|] == walk[d].files;
    assert walk[..d + 1][..d] == walk[..d];
  }

  /** Scanning a directory listing in two parts yields the two parts' records in order. */
  lemma {:induction false} DirRecordsAppend(dir: string, f1: seq<string>, f2: seq<string>,
                                            guess: string -> Option<string>, stat: string -> FileStat)
    ensures DirRecords(dir, f1 + f2, guess, stat)
            == DirRecords(dir, f1, guess, stat) + DirRecords(dir, f2, guess, stat)
    decreases |f2|
  {
    if f2 == [] {
      assert f1 + f2 == f1;
    } else {
      var init, last := f2[..|f2| - 1], f2[|f2| - 1];
      assert (f1 + f2)[..|f1 + f2| - 1] == f1 + init;
      assert (f1 + f2)[|f1 + f2| - 1] == last;
      DirRecordsAppend(dir, f1, init, guess, stat);
      AppendAssoc(DirRecords(dir, f1, guess, stat), DirRecords(dir, init, guess, stat),
                  AsSeq(RecordFor(dir, last, guess, stat)));
    }
  }

  /** Walk order: the records of a walk in two parts are the parts' records, concatenated. */
  lemma {:induction false} ScannedAppend(w1: seq<WalkEntry>, w2: seq<WalkEntry>,
                                         guess: string -> Option<string>, stat: string -> FileStat)
    ensures Scanned(w1 + w2, guess, stat) == Scanned(w1, guess, stat) + Scanned(w2, guess, stat)
    decreases |w2|
  {
    if w2 == [] {
      assert w1 + w2 == w1;
    } else {
      var init, last := w2[..|w2| - 1], w2[|w2| - 1];
      assert (w1 + w2)[..|w1 + w2| - 1] == w1 + init;
      assert (w1 + w2)[|w1 + w2| - 1] == last;
      ScannedAppend(w1, init, guess, stat);
      AppendAssoc(Scanned(w1, guess, stat), Scanned(init, guess, stat),
                  DirRecords(last.root, last.files, guess, stat));
    }
  }

  /** A file whose MIME type passes the filter has its record in its directory's list. */
  lemma {:induction false} DirRecordsContains(dir: string, files: seq<string>, k: nat,
                                              guess: string -> Option<string>, stat: string -> FileStat)
    requires k < |files| && RecordFor(dir, files[k], guess, stat).Some?
    ensures RecordFor(dir, files[k], guess, stat).value in DirRecords(dir, files, guess, stat)
    decreases |files|
  {
    var init := files[..|files| - 1];
    if k < |init| {
      assert init[k] == files[k];
      DirRecordsContains(dir, init, k, guess, stat);
    }
  }

  /** Each record of a directory's list comes from one of its files. */
  lemma {:induction false} DirRecordsSource(dir: string, files: seq<string>, r: MediaRecord,
                                            guess: string -> Option<string>, stat: string -> FileStat)
    returns (k: nat)
    requires r in DirRecords(dir, files, guess, stat)
    ensures k < |files| && RecordFor(dir, files[k], guess, stat) == Some(r)
    decreases |files|
  {
    var init := files[..|files| - 1];
    if r in DirRecords(dir, init, guess, stat) {
      k := DirRecordsSource(dir, init, r, guess, stat);
      assert init[k] == files[k];
    } else {
      k := |files| - 1;
    }
  }

  /** A file of a visited directory whose MIME type passes the filter has its record in the metadata. */
  lemma {:induction false} ScannedContains(walk: seq<WalkEntry>, d: nat, k: nat,
                                           guess: string -> Option<string>, stat: string -> FileStat)
    requires d < |walk| && k < |walk[d].files|
    requires RecordFor(walk[d].root, walk[d].files[k], guess, stat).Some?
    ensures RecordFor(walk[d].root, walk[d].files[k], guess, stat).value in Scanned(walk, guess, stat)
    decreases |walk|
  {
    var init, last := walk[..|walk| - 1], walk[|walk| - 1];
    var r := RecordFor(walk[d].root, walk[d].files[k], guess, stat).value;
    var before, here := Scanned(init, guess, stat), DirRecords(last.root, last.files, guess, stat);
    assert Scanned(walk, guess, stat) == before + here;
    if d < |init| {
      assert init[d] == walk[d];
      ScannedContains(init, d, k, guess, stat);
      assert r in before;
    } else {
      DirRecordsContains(walk[d].root, walk[d].files, k, guess, stat);
      assert r in here;
    }
  }

  /** Each record of the metadata comes from one file of one visited directory. */
  lemma {:induction false} ScannedSource(walk: seq<WalkEntry>, r: MediaRecord,
                                         guess: string -> Option<string>, stat: string -> FileStat)
    returns (d: nat, k: nat)
    requires r in Scanned(walk, guess, stat)
    ensures d < |walk| && k < |walk[d].files|
    ensures RecordFor(walk[d].root, walk[d].files[k], guess, stat) == Some(r)
    decreases |walk|
  {
    var init := walk[..|walk| - 1];
    if r in Scanned(init, guess, stat) {
      d, k := ScannedSource(init, r, guess, stat);
      assert init[d] == walk[d];
    } else {
      d := |walk| - 1;
      k := DirRecordsSource(walk[d].root, walk[d].files, r, guess, stat);
    }
  }

  /** Every record of the metadata passed the filter and describes the file it names. */
  lemma ScannedRecordsAreMedia(walk: seq<WalkEntry>, guess: string -> Option<string>,
                               stat: string -> FileStat, r: MediaRecord)
    requires r in Scanned(walk, guess, stat)
    ensures IsMedia(Some(r.filetype))
    ensures exists d :: 0 <= d < |walk| && r.filename in walk[d].files
                        && r.originalPath == Join(walk[d].root, r.filename)
  {
    var d, k := ScannedSource(walk, r, guess, stat);
    assert r.filename == walk[d].files[k];
  }

  /** One file alone: a record exactly when its MIME type passes the filter. */
  lemma SingleFile(dir: string, file: string, guess: string -> Option<string>, stat: string -> FileStat)
    ensures IsMedia(guess(Join(dir, file))) ==>
              exists r :: DirRecords(dir, [file], guess, stat) == [r]
                          && r.originalPath == Join(dir, file) && r.filename == file
                          && Some(r.filetype) == guess(Join(dir, file))
    ensures !IsMedia(guess(Join(dir, file))) ==> DirRecords(dir, [file], guess, stat) == []
  {
    assert [file][..0] == [];
    if IsMedia(guess(Join(dir, file))) {
      var r := RecordFor(dir, file, guess, stat).value;
      assert DirRecords(dir, [file], guess, stat) == [r];
    }
  }
}
