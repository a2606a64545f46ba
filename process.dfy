/**
 * `process_media`, `process_image` and `process_video`
 * (media_archive.py:31-82): which transcoder is asked to write a file's proxy
 * and where. The decoding, resizing and encoding belong to PIL and moviepy;
 * here each call is one effect in a trace carrying the parameters the source
 * passes, and whether the call raises is a parameter.
 */
module Process {
  import opened Wrappers
  import opened Seqs
  import opened PyStr
  import opened PosixPath
  import opened Scan
  import opened Naming

  const MaxWidth: nat := 1440
  const MaxHeight: nat := 1440
  const ImageQuality: nat := 75
  const VideoWidth: nat := 320
  const VideoCodec: string := "libx264"
  const AudioCodec: string := "aac"

  /** One side effect the pipeline asks of the filesystem or of a transcoder. */
  datatype Effect =
    | MakeDirs(path: string)                          // os.makedirs(path, exist_ok=True)
    | WriteMetadata(path: string, records: seq<MediaRecord>)
    | SaveImage(source: string, target: string, maxWidth: nat, maxHeight: nat,
                optimize: bool, quality: nat)
    | WriteVideo(source: string, target: string, width: nat, codec: string, audioCodec: string)
    | ReportFailure(source: string)                   // the line an except branch prints

  /** A call into a transcoder. */
  predicate IsAttempt(e: Effect) {
    e.SaveImage? || e.WriteVideo?
  }

  datatype MediaKind = Image | Video | Unsupported

  /** The branch `process_media` takes: the image prefix is tested first. */
  function Dispatch(mime: string): (k: MediaKind)
    ensures k == Image <==> StartsWith(mime, "image")
    ensures k == Video <==> !StartsWith(mime, "image") && StartsWith(mime, "video")
  {
    if StartsWith(mime, "image") then Image
    else if StartsWith(mime, "video") then Video
    else Unsupported
  }

  /** Dispatch processes exactly the MIME types the scan keeps. */
  lemma DispatchAgreesWithScan(mime: string)
    ensures Dispatch(mime) != Unsupported <==> IsMedia(Some(mime))
  {
  }

  /** So every record of the metadata reaches one of the two transcoders. */
  lemma ScannedRecordsAreProcessed(walk: seq<WalkEntry>, guess: string -> Option<string>,
                                   stat: string -> FileStat, r: MediaRecord)
    requires r in Scanned(walk, guess, stat)
    ensures Dispatch(r.filetype) != Unsupported
  {
    ScannedRecordsAreMedia(walk, guess, stat, r);
    DispatchAgreesWithScan(r.filetype);
  }

  /** The save call of `process_image`: bounded to 1440x1440, optimised, quality 75. */
  function ProcessImage(originalPath: string, thumbnailPath: string): Effect {
    SaveImage(originalPath, ImageSavePath(thumbnailPath), MaxWidth, MaxHeight, true, ImageQuality)
  }

  /** The transcode of `process_video`: width 320, H.264 video and AAC audio. */
  function ProcessVideo(originalPath: string, thumbnailPath: string): Effect {
    WriteVideo(originalPath, thumbnailPath, VideoWidth, VideoCodec, AudioCodec)
  }

  /** The transcoder call `process_media` makes for a record, if any. */
  function Transcode(rec: MediaRecord, rootDir: string, shadowRoot: string): (r: Option<Effect>)
    ensures r.Some? <==> Dispatch(rec.filetype) != Unsupported
    ensures r.Some? ==> IsAttempt(r.value) && r.value.source == rec.originalPath
    ensures r.Some? ==> (r.value.SaveImage? <==> Dispatch(rec.filetype) == Image)
    ensures r.Some? ==>
              var thumbnailPath := ThumbnailPath(rec.originalPath, rec.filename, rootDir, shadowRoot);
              r.value.target == if r.value.SaveImage? then ImageSavePath(thumbnailPath) else thumbnailPath
    ensures r.Some? && r.value.SaveImage? ==>
              r.value.maxWidth == MaxWidth && r.value.maxHeight == MaxHeight
              && r.value.optimize && r.value.quality == ImageQuality
    ensures r.Some? && r.value.WriteVideo? ==>
              r.value.width == VideoWidth && r.value.codec == VideoCodec && r.value.audioCodec == AudioCodec
  {
    var thumbnailPath := ThumbnailPath(rec.originalPath, rec.filename, rootDir, shadowRoot);
    match Dispatch(rec.filetype)
    case Image => Some(ProcessImage(rec.originalPath, thumbnailPath))
    case Video => Some(ProcessVideo(rec.originalPath, thumbnailPath))
    case Unsupported => None
  }

  /**
   * For a file `rest/file` below the root, the call writes the mirrored proxy
   * `shadowRoot + rest/<stem>-thumbnail<ext>`, with the image infix for an image.
   */
  lemma TranscodeMirrors(rec: MediaRecord, rootDir: string, shadowRoot: string, rest: string, file: string)
    requires NoTrailingSep(rootDir) && NoTrailingSep(shadowRoot) && SubPath(rest)
    requires file != [] && Sep !in file
    requires rec.originalPath == Join(rootDir + rest, file) && rec.filename == file
    requires Dispatch(rec.filetype) != Unsupported
    ensures var proxy := shadowRoot + rest + [Sep] + ThumbnailName(file);
            Transcode(rec, rootDir, shadowRoot)
            == Some(if Dispatch(rec.filetype) == Image then ProcessImage(rec.originalPath, proxy)
                    else ProcessVideo(rec.originalPath, proxy))
  {
    ThumbnailMirrors(rootDir, shadowRoot, rest, file);
  }

  /** The call, followed by the printed report when it raises: the `try`/`except` around it. */
  function Guarded(e: Effect, fails: Effect -> bool): seq<Effect>
    requires IsAttempt(e)
  {
    [e] + if fails(e) then [ReportFailure(e.source)] else []
  }

  /** The transcoder calls of a trace, in order. */
  function Attempts(es: seq<Effect>): seq<Effect> {
    if es == [] then []
    else Attempts(es[..|es| - 1]) + if IsAttempt(es[|es| - 1]) then [es[|es| - 1]] else []
  }

  /** A trace without its printed failure reports. */
  function WithoutReports(es: seq<Effect>): seq<Effect> {
    if es == [] then []
    else WithoutReports(es[..|es| - 1]) + if es[|es| - 1].ReportFailure? then [] else [es[|es| - 1]]
  }

  lemma {:induction false} AttemptsAppend(a: seq<Effect>, b: seq<Effect>)
    ensures Attempts(a + b) == Attempts(a) + Attempts(b)
    decreases |b|
  {
    if b != [] {
      var init, last := b[..|b| - 1], b[|b| - 1];
      assert (a + b)[..|a + b| - 1] == a + init;
      assert (a + b)[|a + b| - 1] == last;
      AttemptsAppend(a, init);
      AppendAssoc(Attempts(a), Attempts(init), Attempts([last]));
      assert Attempts([last]) == Attempts([]) + Attempts([last]);
    } else {
      assert a + b == a;
    }
  }

  lemma {:induction false} WithoutReportsAppend(a: seq<Effect>, b: seq<Effect>)
    ensures WithoutReports(a + b) == WithoutReports(a) + WithoutReports(b)
    decreases |b|
  {
    if b != [] {
      var init, last := b[..|b| - 1], b[|b| - 1];
      assert (a + b)[..|a + b| - 1] == a + init;
      assert (a + b)[|a + b| - 1] == last;
      WithoutReportsAppend(a, init);
      AppendAssoc(WithoutReports(a), WithoutReports(init), WithoutReports([last]));
      assert WithoutReports([last]) == WithoutReports([]) + WithoutReports([last]);
    } else {
      assert a + b == a;
    }
  }

  /** The failure reports of a trace, in order. */
  function Reports(es: seq<Effect>): seq<Effect> {
    if es == [] then []
    else Reports(es[..|es| - 1]) + if es[|es| - 1].ReportFailure? then [es[|es| - 1]] else []
  }

  /** The report each raising call should print, in call order: the reference for a trace's reports. */
  function FailureReports(calls: seq<Effect>, fails: Effect -> bool): seq<Effect> {
    if calls == [] then []
    else
      var last := calls[|calls| - 1];
      FailureReports(calls[..|calls| - 1], fails)
      + if IsAttempt(last) && fails(last) then [ReportFailure(last.source)] else []
  }

  lemma {:induction false} ReportsAppend(a: seq<Effect>, b: seq<Effect>)
    ensures Reports(a + b) == Reports(a) + Reports(b)
    decreases |b|
  {
    if b != [] {
      var init, last := b[..|b| - 1], b[|b| - 1];
      assert (a + b)[..|a + b| - 1] == a + init;
      assert (a + b)[|a + b| - 1] == last;
      ReportsAppend(a, init);
      AppendAssoc(Reports(a), Reports(init), Reports([last]));
      assert Reports([last]) == Reports([]) + Reports([last]);
    } else {
      assert a + b == a;
    }
  }

  lemma {:induction false} FailureReportsAppend(a: seq<Effect>, b: seq<Effect>, fails: Effect -> bool)
    ensures FailureReports(a + b, fails) == FailureReports(a, fails) + FailureReports(b, fails)
    decreases |b|
  {
    if b != [] {
      var init, last := b[..|b| - 1], b[|b| - 1];
      assert (a + b)[..|a + b| - 1] == a + init;
      assert (a + b)[|a + b| - 1] == last;
      FailureReportsAppend(a, init, fails);
      AppendAssoc(FailureReports(a, fails), FailureReports(init, fails), FailureReports([last], fails));
      assert FailureReports([last], fails) == FailureReports([], fails) + FailureReports([last], fails);
    } else {
      assert a + b == a;
    }
  }

  /** The call, if there is one, inside its `try`/`except`. */
  function GuardedCall(call: Option<Effect>, fails: Effect -> bool): seq<Effect>
    requires call.Some? ==> IsAttempt(call.value)
  {
    match call
    case None => []
    case Some(e) => Guarded(e, fails)
  }

  /**
   * A guarded call holds one transcoder call, whether or not it raised, and
   * a report naming the original file exactly when the call raised.
   */
  lemma GuardedTrace(e: Effect, fails: Effect -> bool)
    requires IsAttempt(e)
    ensures Attempts(Guarded(e, fails)) == [e]
    ensures WithoutReports(Guarded(e, fails)) == [e]
    ensures fails(e) <==> |Guarded(e, fails)| == 2
    ensures fails(e) ==> Guarded(e, fails)[1] == ReportFailure(e.source)
    ensures Reports(Guarded(e, fails)) == FailureReports([e], fails)
  {
    var g := Guarded(e, fails);
    assert g[..1] == [e];
    assert [e][..0] == [];
    assert Attempts([e]) == [e];
    assert WithoutReports([e]) == [e];
    assert Reports([e]) == [];
    assert [e][..0] == [];
  }

  /** A directory creation followed by a guarded call: its calls, and its trace without reports. */
  lemma GuardedCallTrace(dir: string, call: Option<Effect>, fails: Effect -> bool)
    requires call.Some? ==> IsAttempt(call.value)
    ensures Attempts([MakeDirs(dir)] + GuardedCall(call, fails)) == AsSeq(call)
    ensures WithoutReports([MakeDirs(dir)] + GuardedCall(call, fails)) == [MakeDirs(dir)] + AsSeq(call)
  {
    var head := [MakeDirs(dir)];
    var tail := GuardedCall(call, fails);
    assert head[..0] == [];
    assert Attempts(head) == [] && WithoutReports(head) == head;
    if call.Some? {
      GuardedTrace(call.value, fails);
    }
    AttemptsAppend(head, tail);
    WithoutReportsAppend(head, tail);
  }

  /** ... and a report exactly when the call raised. */
  lemma GuardedCallReports(dir: string, call: Option<Effect>, fails: Effect -> bool)
    requires call.Some? ==> IsAttempt(call.value)
    ensures Reports([MakeDirs(dir)] + GuardedCall(call, fails)) == FailureReports(AsSeq(call), fails)
  {
    var head := [MakeDirs(dir)];
    var tail := GuardedCall(call, fails);
    assert head[..0] == [];
    assert Reports(head) == [];
    if call.Some? {
      GuardedTrace(call.value, fails);
    }
    ReportsAppend(head, tail);
  }

  /**
   * `process_media`: create the shadow directory, then hand the file to the
   * transcoder its MIME type selects. A raised error adds a report and
   * nothing else.
   */
  function ProcessMedia(rec: MediaRecord, rootDir: string, shadowRoot: string,
                        fails: Effect -> bool): (r: seq<Effect>)
    ensures r != [] && r[0] == MakeDirs(ShadowDir(rec.originalPath, rootDir, shadowRoot))
    ensures Attempts(r) == AsSeq(Transcode(rec, rootDir, shadowRoot))
    ensures WithoutReports(r)
            == [MakeDirs(ShadowDir(rec.originalPath, rootDir, shadowRoot))]
               + AsSeq(Transcode(rec, rootDir, shadowRoot))
    ensures Reports(r) == FailureReports(AsSeq(Transcode(rec, rootDir, shadowRoot)), fails)
  {
    var shadowDir := ShadowDir(rec.originalPath, rootDir, shadowRoot);
    var call := Transcode(rec, rootDir, shadowRoot);
    GuardedCallTrace(shadowDir, call, fails);
    GuardedCallReports(shadowDir, call, fails);
    [MakeDirs(shadowDir)] + GuardedCall(call, fails)
  }

  /** The loop of `main` over the metadata: each record processed in turn. */
  function ProcessAll(records: seq<MediaRecord>, rootDir: string, shadowRoot: string,
                      fails: Effect -> bool): seq<Effect>
  {
    if records == [] then []
    else ProcessAll(records[..|records| - 1], rootDir, shadowRoot, fails)
         + ProcessMedia(records[|records| - 1], rootDir, shadowRoot, fails)
  }

  /** Processing a list in two parts is processing each part, in order. */
  lemma {:induction false} ProcessAllAppend(a: seq<MediaRecord>, b: seq<MediaRecord>, rootDir: string,
                                            shadowRoot: string, fails: Effect -> bool)
    ensures ProcessAll(a + b, rootDir, shadowRoot, fails)
            == ProcessAll(a, rootDir, shadowRoot, fails) + ProcessAll(b, rootDir, shadowRoot, fails)
    decreases |b|
  {
    if b != [] {
      var init, last := b[..|b| - 1], b[|b| - 1];
      assert (a + b)[..|a + b| - 1] == a + init;
      assert (a + b)[|a + b| - 1] == last;
      ProcessAllAppend(a, init, rootDir, shadowRoot, fails);
      AppendAssoc(ProcessAll(a, rootDir, shadowRoot, fails), ProcessAll(init, rootDir, shadowRoot, fails),
                  ProcessMedia(last, rootDir, shadowRoot, fails));
    } else {
      assert a + b == a;
    }
  }

  /** One more record processed: its effects follow those of the records before it. */
  lemma ProcessAllStep(before: seq<Effect>, effects: seq<Effect>, records: seq<MediaRecord>, i: nat,
                       rootDir: string, shadowRoot: string, fails: Effect -> bool)
    requires i < |records|
    requires effects == before + ProcessAll(records[..i], rootDir, shadowRoot, fails)
    ensures effects + ProcessMedia(records[i], rootDir, shadowRoot, fails)
            == before + ProcessAll(records[..i + 1], rootDir, shadowRoot, fails)
  {
    assert records[..i + 1][..i] == records[..i];
    AppendAssoc(before, ProcessAll(records[..i], rootDir, shadowRoot, fails),
                ProcessMedia(records[i], rootDir, shadowRoot, fails));
  }

  /**
   * Failure isolation: whichever calls raise, the trace minus its reports is
   * the same, so a failure never stops or changes the processing of any
   * other file.
   */
  lemma {:induction false} FailuresOnlyAddReports(records: seq<MediaRecord>, rootDir: string,
                                                  shadowRoot: string, fails1: Effect -> bool,
                                                  fails2: Effect -> bool)
    ensures WithoutReports(ProcessAll(records, rootDir, shadowRoot, fails1))
            == WithoutReports(ProcessAll(records, rootDir, shadowRoot, fails2))
    decreases |records|
  {
    if records != [] {
      var init, last := records[..|records| - 1], records[|records| - 1];
      FailuresOnlyAddReports(init, rootDir, shadowRoot, fails1, fails2);
      WithoutReportsAppend(ProcessAll(init, rootDir, shadowRoot, fails1),
                           ProcessMedia(last, rootDir, shadowRoot, fails1));
      WithoutReportsAppend(ProcessAll(init, rootDir, shadowRoot, fails2),
                           ProcessMedia(last, rootDir, shadowRoot, fails2));
    }
  }

  /** Every record is an image or a video. */
  predicate AllProcessable(records: seq<MediaRecord>) {
    forall k :: 0 <= k < |records| ==> Dispatch(records[k].filetype) != Unsupported
  }

  /** The transcoder calls are exactly the records' calls, one each, in record order. */
  predicate CallsMatch(attempts: seq<Effect>, records: seq<MediaRecord>, rootDir: string,
                       shadowRoot: string) {
    |attempts| == |records|
    && forall k :: 0 <= k < |records| ==> Transcode(records[k], rootDir, shadowRoot) == Some(attempts[k])
  }

  /** The metadata holds images and videos only. */
  lemma ScannedAllProcessable(walk: seq<WalkEntry>, guess: string -> Option<string>,
                              stat: string -> FileStat)
    ensures AllProcessable(Scanned(walk, guess, stat))
  {
    var records := Scanned(walk, guess, stat);
    forall k | 0 <= k < |records| ensures Dispatch(records[k].filetype) != Unsupported {
      ScannedRecordsAreProcessed(walk, guess, stat, records[k]);
    }
  }

  /** `process_media`'s transcoder call, as a function of the record. */
  function TranscodeOf(rootDir: string, shadowRoot: string): MediaRecord -> Option<Effect> {
    rec => Transcode(rec, rootDir, shadowRoot)
  }

  /** The transcoder calls of the records, in record order: the reference for the trace's attempts. */
  function Calls(records: seq<MediaRecord>, rootDir: string, shadowRoot: string): seq<Effect> {
    Somes(records, TranscodeOf(rootDir, shadowRoot))
  }

  /** Processing one more record adds exactly that record's transcoder call, if it has one. */
  lemma AttemptsSnoc(records: seq<MediaRecord>, rootDir: string, shadowRoot: string, fails: Effect -> bool)
    requires records != []
    ensures Attempts(ProcessAll(records, rootDir, shadowRoot, fails))
            == Attempts(ProcessAll(records[..|records| - 1], rootDir, shadowRoot, fails))
               + AsSeq(Transcode(records[|records| - 1], rootDir, shadowRoot))
  {
    AttemptsAppend(ProcessAll(records[..|records| - 1], rootDir, shadowRoot, fails),
                   ProcessMedia(records[|records| - 1], rootDir, shadowRoot, fails));
  }

  /** Whichever calls raise, the calls attempted are the records' calls, in order. */
  lemma {:induction false} AttemptsAreCalls(records: seq<MediaRecord>, rootDir: string,
                                            shadowRoot: string, fails: Effect -> bool)
    ensures Attempts(ProcessAll(records, rootDir, shadowRoot, fails)) == Calls(records, rootDir, shadowRoot)
    decreases |records|
  {
    if records != [] {
      AttemptsAreCalls(records[..|records| - 1], rootDir, shadowRoot, fails);
      AttemptsSnoc(records, rootDir, shadowRoot, fails);
    }
  }

  /**
   * The `except` branches: a run prints one report per raising call, naming
   * that call's original file, in record order, and no other report.
   */
  lemma {:induction false} ReportsAreFailedCalls(records: seq<MediaRecord>, rootDir: string,
                                                 shadowRoot: string, fails: Effect -> bool)
    ensures Reports(ProcessAll(records, rootDir, shadowRoot, fails))
            == FailureReports(Calls(records, rootDir, shadowRoot), fails)
    decreases |records|
  {
    if records != [] {
      var init, last := records[..|records| - 1], records[|records| - 1];
      ReportsAreFailedCalls(init, rootDir, shadowRoot, fails);
      ReportsAppend(ProcessAll(init, rootDir, shadowRoot, fails), ProcessMedia(last, rootDir, shadowRoot, fails));
      FailureReportsAppend(Calls(init, rootDir, shadowRoot), AsSeq(Transcode(last, rootDir, shadowRoot)), fails);
    }
  }

  /** When every record is an image or a video, each record has exactly its own call, at its own index. */
  lemma CallsMatchRecords(records: seq<MediaRecord>, rootDir: string, shadowRoot: string)
    requires AllProcessable(records)
    ensures CallsMatch(Calls(records, rootDir, shadowRoot), records, rootDir, shadowRoot)
  {
    var f := TranscodeOf(rootDir, shadowRoot);
    assert forall i :: 0 <= i < |records| ==> f(records[i]).Some?;
    SomesLength(records, f);
    forall k | 0 <= k < |records|
      ensures Transcode(records[k], rootDir, shadowRoot) == Some(Calls(records, rootDir, shadowRoot)[k])
    {
      SomesAt(records, f, k);
    }
  }

  /**
   * When every record is an image or a video, the transcoder is called
   * exactly once per record, in record order, with that record's call.
   */
  lemma OneAttemptPerRecord(records: seq<MediaRecord>, rootDir: string, shadowRoot: string, fails: Effect -> bool)
    requires AllProcessable(records)
    ensures CallsMatch(Attempts(ProcessAll(records, rootDir, shadowRoot, fails)), records, rootDir, shadowRoot)
  {
    AttemptsAreCalls(records, rootDir, shadowRoot, fails);
    CallsMatchRecords(records, rootDir, shadowRoot);
  }
}
