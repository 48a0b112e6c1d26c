/** The background tasks (app/workers/celery_worker.py): the conversion
    job, with its per-file loop, its aggregation of results and its retry
    rule, and the periodic retention sweep. The Celery machinery around
    them is not modelled; the retry counter is an explicit number and the
    clock, the UUIDs and the libraries are parameters. */
module Worker {
  import opened Basics
  import opened PyText
  import opened PyPath
  import opened Fs
  import Config
  import FileUtils
  import Conversions

  /** Executions a job may be retried after an unexpected error. */
  const MAX_RETRIES: nat := 3

  /** One queued input record; `None` stands for a missing key. */
  datatype InputFile = InputFile(path: Option<string>, filename: Option<string>)

  /** One converted file. */
  datatype OutputFile = OutputFile(path: Option<string>, filename: string, originalFilename: string)

  /** One file that could not be converted. */
  datatype FileError = FileError(filename: string, error: string)

  /** What one input contributed: an output or an error, never both. */
  datatype Outcome = Converted(file: OutputFile) | Errored(err: FileError)

  /** The `output` entry of a success record. */
  datatype FinalOutput =
    | ZipOutput(filename: string, zipPath: string, filesCount: nat)
    | SingleOutput(filename: string, path: Option<string>)

  /** The record the job returns (its duration aside). */
  datatype TaskResult =
    | SuccessRecord(taskId: string, output: FinalOutput, errors: Option<seq<FileError>>,
                    processedFiles: nat, successfulFiles: nat)
    | FailedRecord(taskId: string, error: string)

  /** How one execution of the job ends: it returns a record, or it asks
      the broker to run it again after an unexpected error. */
  datatype TaskRun = Returned(result: TaskResult) | RetryRequested(exc: string)

  /** The outside world of one execution: the libraries, one UUID per
      input, the clock, and the timestamp text used in archive names. */
  datatype WorkerEnv = WorkerEnv(codecs: Conversions.Codecs, uuids: seq<string>, now: int, stamp: string)

  const ALL_FAILED: string := "All conversions failed"
  const UNEXPECTED_PREFIX: string := "Unexpected error: "

  /** The error `os.path.basename(None)` raises. */
  const BASENAME_NONE_ERROR: string := "expected str, bytes or os.PathLike object, not NoneType"

  // ---------------------------------------------------------------------
  // Per-file naming

  /** The unique output name for an input: the input's stem with the
      target extension, sanitized and prefixed with the UUID digits. */
  function OutputName(originalFilename: string, targetFormat: string, uuid: string): (r: string)
    requires FileUtils.IsUuidHex(uuid)
    ensures r == uuid[..12] + "_" + FileUtils.SanitizeFilename(
                   FileUtils.GetConversionOutputFilename(originalFilename, targetFormat))
    ensures '/' !in r
  {
    FileUtils.GenerateUniqueFilename(FileUtils.GetConversionOutputFilename(originalFilename, targetFormat), uuid)
  }

  /** For a plain upload name made of kept characters, the output is named
      with the target format as its extension. */
  lemma OutputNameHasTarget(originalFilename: string, targetFormat: string, uuid: string)
    requires FileUtils.IsUuidHex(uuid)
    requires originalFilename != [] && '/' !in originalFilename && originalFilename[0] != '.'
    requires forall c :: c in originalFilename ==> FileUtils.KeptInName(c)
    requires forall c :: c in targetFormat ==> 'a' <= c <= 'z'
    ensures SplitExt(OutputName(originalFilename, targetFormat, uuid)).1 == "." + targetFormat
    ensures EndsWith(OutputName(originalFilename, targetFormat, uuid), "." + targetFormat)
  {
    var out := FileUtils.GetConversionOutputFilename(originalFilename, targetFormat);
    FileUtils.OutputFilenameHasTarget(originalFilename, targetFormat);
    var stem := SplitExt(originalFilename).0;
    assert out == stem + "." + targetFormat;
    assert stem == originalFilename[..|stem|];
    assert forall c :: c in out ==> FileUtils.KeptInName(c) by {
      assert forall c :: c in out ==> c in stem || c == '.' || c in targetFormat;
    }
    FileUtils.UniqueNameKeepsExtension(out, uuid);
    var name := OutputName(originalFilename, targetFormat, uuid);
    assert name == SplitExt(name).0 + SplitExt(name).1;
  }

  /** `@@.png` converted to jpg is named `@@.jpg` before sanitizing, and
      `<uuid>__jpg` after. */
  lemma OutputNameOfDroppedStem(uuid: string)
    requires FileUtils.IsUuidHex(uuid)
    ensures OutputName("@@.png", "jpg", uuid) == uuid[..12] + "_" + "_jpg"
  {
    SplitExtAtDot();
    assert FileUtils.GetConversionOutputFilename("@@.png", "jpg") == "@@.jpg";
    FileUtils.SanitizeDroppedStem();
  }

  /** The job treats a PDF source with a raster target (compared as given)
      as a rasterization whose file name comes from the page path. */
  predicate IsRasterJob(originalFilename: string, targetFormat: string): (b: bool)
    ensures b ==> Conversions.Route(FileUtils.GetFileExtension(originalFilename), Lower(targetFormat))
                  == Some(Conversions.PdfToImages)
  {
    if FileUtils.GetFileExtension(originalFilename) == "pdf" && targetFormat in Conversions.RASTER_FORMATS then
      Conversions.RasterFormatsAreLower(targetFormat);
      true
    else false
  }

  /** The name an outcome is reported under. */
  function OriginalOf(o: Outcome): string
  {
    match o
    case Converted(f) => f.originalFilename
    case Errored(e) => e.filename
  }

  /** What the job records for one well-formed input: the outcome carries
      the input's name, and an output is named by `OutputName`, or by the
      base name of the first page for a rasterization. */
  predicate Recorded(o: Outcome, originalFilename: string, targetFormat: string, uuid: string)
    requires FileUtils.IsUuidHex(uuid)
  {
    OriginalOf(o) == originalFilename
    && (o.Converted? && !IsRasterJob(originalFilename, targetFormat) ==>
          o.file.filename == OutputName(originalFilename, targetFormat, uuid))
    && (o.Converted? && IsRasterJob(originalFilename, targetFormat) ==>
          o.file.path.Some? && o.file.filename == Basename(o.file.path.value))
  }

  /** The outcome the job records for a well-formed input once the
      dispatcher has returned `conv`: its `ConversionError` becomes an
      error entry, and so does the `TypeError` of a rasterization that
      produced no page; otherwise the produced path is the output's path. */
  function OutcomeOf(conv: Conversions.Converted, originalFilename: string, targetFormat: string, uuid: string)
    : (o: Outcome)
    requires FileUtils.IsUuidHex(uuid)
    ensures Recorded(o, originalFilename, targetFormat, uuid)
    ensures o.Errored? <==> conv.Failed? || (IsRasterJob(originalFilename, targetFormat) && conv.path.None?)
    ensures conv.Failed? ==> o.err.error == conv.message
    ensures o.Converted? ==> o.file.path == conv.path
  {
    if conv.Failed? then Errored(FileError(originalFilename, conv.message))
    else if IsRasterJob(originalFilename, targetFormat) then
      if conv.path.None? then Errored(FileError(originalFilename, BASENAME_NONE_ERROR))
      else Converted(OutputFile(conv.path, Basename(conv.path.value), originalFilename))
    else Converted(OutputFile(conv.path, OutputName(originalFilename, targetFormat, uuid), originalFilename))
  }

  /** Where the job asks the dispatcher to write an input's output. */
  function OutputPath(originalFilename: string, targetFormat: string, uuid: string): (r: string)
    requires FileUtils.IsUuidHex(uuid)
    ensures ChildOf(r, Config.OUTPUT_DIR) && ChildName(r, Config.OUTPUT_DIR) == OutputName(originalFilename, targetFormat, uuid)
  {
    var name := OutputName(originalFilename, targetFormat, uuid);
    JoinIsChild(Config.OUTPUT_DIR, name);
    Join(Config.OUTPUT_DIR, name)
  }

  /** One iteration of the job's loop on `files`, for a well-formed record:
      the outcome and the files the dispatcher leaves. */
  function ConvertStep(files: map<string, FileEntry>, dirs: set<string>, locked: set<string>,
                       codecs: Conversions.Codecs, inputPath: string, originalFilename: string,
                       targetFormat: string, uuid: string, now: int): (r: (Outcome, map<string, FileEntry>))
    requires FileUtils.IsUuidHex(uuid)
    ensures Recorded(r.0, originalFilename, targetFormat, uuid)
  {
    var e := Conversions.ConversionEffect(files, dirs, locked, codecs, inputPath,
                                          OutputPath(originalFilename, targetFormat, uuid),
                                          FileUtils.GetFileExtension(originalFilename), targetFormat, now);
    (OutcomeOf(e.result, originalFilename, targetFormat, uuid), e.files)
  }

  /** An unsupported pair is reported under the input's name and changes
      no file; any other output that is not a rasterization is written at
      `OutputPath`. */
  lemma StepRoutes(files: map<string, FileEntry>, dirs: set<string>, locked: set<string>,
                   codecs: Conversions.Codecs, inputPath: string, originalFilename: string,
                   targetFormat: string, uuid: string, now: int)
    requires FileUtils.IsUuidHex(uuid)
    ensures var r := ConvertStep(files, dirs, locked, codecs, inputPath, originalFilename, targetFormat, uuid, now);
      var source := FileUtils.GetFileExtension(originalFilename);
      var route := Conversions.Route(source, Lower(targetFormat));
      (route.None? ==>
         r == (Errored(FileError(originalFilename, Conversions.UnsupportedMessage(source, targetFormat))), files))
      && (route.Some? && route.value != Conversions.PdfToImages && r.0.Converted? ==>
            r.0.file.path == Some(OutputPath(originalFilename, targetFormat, uuid)))
  {
    var source := FileUtils.GetFileExtension(originalFilename);
    assert Lower(source) == source by {
      assert forall c :: c in source ==> !('A' <= c <= 'Z');
      LowerKeepsLowered(source);
    }
    Conversions.ConversionEffectByRoute(files, dirs, locked, codecs, inputPath,
                                        OutputPath(originalFilename, targetFormat, uuid),
                                        source, targetFormat, now);
  }

  /** One iteration of the job's loop for a well-formed record: the
      conversion runs; its `ConversionError`, or the `TypeError` of a
      rasterization that produced no page, becomes an error entry. */
  method ConvertOne(fs: FileSystem, codecs: Conversions.Codecs, inputPath: string, originalFilename: string,
                    targetFormat: string, uuid: string, now: int)
    returns (o: Outcome)
    requires FileUtils.IsUuidHex(uuid)
    modifies fs
    ensures fs.dirs == old(fs.dirs) && fs.locked == old(fs.locked)
    ensures (o, fs.files)
         == ConvertStep(old(fs.files), old(fs.dirs), old(fs.locked), codecs, inputPath, originalFilename,
                        targetFormat, uuid, now)
  {
    var source := FileUtils.GetFileExtension(originalFilename);
    var outName := OutputName(originalFilename, targetFormat, uuid);
    var outPath := OutputPath(originalFilename, targetFormat, uuid);
    assert Lower(source) == source by {
      assert forall c :: c in source ==> !('A' <= c <= 'Z');
      LowerKeepsLowered(source);
    }
    var conv := Conversions.ConvertFile(fs, codecs, inputPath, outPath, source, targetFormat, now);
    if conv.Failed? {
      return Errored(FileError(originalFilename, conv.message));
    }
    if source == "pdf" && targetFormat in Conversions.RASTER_FORMATS {
      Conversions.RasterFormatsAreLower(targetFormat);
      if conv.path.None? {
        return Errored(FileError(originalFilename, BASENAME_NONE_ERROR));
      }
      return Converted(OutputFile(conv.path, Basename(conv.path.value), originalFilename));
    }
    return Converted(OutputFile(conv.path, outName, originalFilename));
  }

  // ---------------------------------------------------------------------
  // The loop over the inputs

  /** Where the first record lacking a key sits, or the number of records
      when none does. */
  function FirstMalformed(inputFiles: seq<InputFile>): (n: nat)
    ensures n <= |inputFiles|
    ensures forall i :: 0 <= i < n ==> inputFiles[i].path.Some? && inputFiles[i].filename.Some?
    ensures n < |inputFiles| ==> inputFiles[n].path.None? || inputFiles[n].filename.None?
  {
    if inputFiles == [] then 0
    else if inputFiles[0].path.None? || inputFiles[0].filename.None? then 0
    else 1 + FirstMalformed(inputFiles[1..])
  }

  /** The text of the `KeyError` a malformed record raises: `path` is read
      before `filename`. */
  function MissingKey(f: InputFile): string
  {
    if f.path.None? then "'path'" else "'filename'"
  }

  /** The environment holds a UUID for every record. */
  predicate UuidsCover(inputFiles: seq<InputFile>, env: WorkerEnv)
  {
    |env.uuids| >= |inputFiles| && forall i :: 0 <= i < |inputFiles| ==> FileUtils.IsUuidHex(env.uuids[i])
  }

  /** The job's loop on `files` over the first `n` records, all of them
      well-formed: the outcomes in input order and the files after the
      last of them. */
  function ConvertPrefix(files: map<string, FileEntry>, dirs: set<string>, locked: set<string>,
                         inputFiles: seq<InputFile>, targetFormat: string, env: WorkerEnv, n: nat)
    : (r: (seq<Outcome>, map<string, FileEntry>))
    requires n <= FirstMalformed(inputFiles) && UuidsCover(inputFiles, env)
    ensures |r.0| == n
  {
    if n == 0 then ([], files)
    else
      var prev := ConvertPrefix(files, dirs, locked, inputFiles, targetFormat, env, n - 1);
      var f := inputFiles[n - 1];
      var step := ConvertStep(prev.1, dirs, locked, env.codecs, f.path.value, f.filename.value,
                              targetFormat, env.uuids[n - 1], env.now);
      (prev.0 + [step.0], step.1)
  }

  /** Every outcome of the loop carries its input's name, and an output
      the name the job gives it. */
  lemma {:induction false} PrefixIsRecorded(files: map<string, FileEntry>, dirs: set<string>, locked: set<string>,
                                            inputFiles: seq<InputFile>, targetFormat: string, env: WorkerEnv,
                                            n: nat, k: nat)
    requires n <= FirstMalformed(inputFiles) && UuidsCover(inputFiles, env)
    requires k < n
    ensures Recorded(ConvertPrefix(files, dirs, locked, inputFiles, targetFormat, env, n).0[k],
                     inputFiles[k].filename.value, targetFormat, env.uuids[k])
  {
    var prev := ConvertPrefix(files, dirs, locked, inputFiles, targetFormat, env, n - 1);
    var f := inputFiles[n - 1];
    var step := ConvertStep(prev.1, dirs, locked, env.codecs, f.path.value, f.filename.value,
                            targetFormat, env.uuids[n - 1], env.now);
    var outcomes := ConvertPrefix(files, dirs, locked, inputFiles, targetFormat, env, n).0;
    assert outcomes == prev.0 + [step.0];
    if k < n - 1 {
      PrefixIsRecorded(files, dirs, locked, inputFiles, targetFormat, env, n - 1, k);
      assert outcomes[k] == prev.0[k];
    } else {
      assert outcomes[k] == step.0;
    }
  }

  /** `PrefixIsRecorded` for every outcome of the loop. */
  lemma PrefixRecorded(files: map<string, FileEntry>, dirs: set<string>, locked: set<string>,
                       inputFiles: seq<InputFile>, targetFormat: string, env: WorkerEnv, n: nat)
    requires n <= FirstMalformed(inputFiles) && UuidsCover(inputFiles, env)
    ensures var outcomes := ConvertPrefix(files, dirs, locked, inputFiles, targetFormat, env, n).0;
      forall k {:trigger outcomes[k]} :: 0 <= k < n ==>
        Recorded(outcomes[k], inputFiles[k].filename.value, targetFormat, env.uuids[k])
  {
    forall k | 0 <= k < n
      ensures Recorded(ConvertPrefix(files, dirs, locked, inputFiles, targetFormat, env, n).0[k],
                       inputFiles[k].filename.value, targetFormat, env.uuids[k])
    {
      PrefixIsRecorded(files, dirs, locked, inputFiles, targetFormat, env, n, k);
    }
  }

  /** The job's loop: one outcome per input, in order, until a record
      lacking a key raises out of the loop. */
  method ConvertInputs(fs: FileSystem, inputFiles: seq<InputFile>, targetFormat: string, env: WorkerEnv)
    returns (outcomes: seq<Outcome>, fault: Option<string>)
    requires UuidsCover(inputFiles, env)
    modifies fs
    ensures fs.dirs == old(fs.dirs) && fs.locked == old(fs.locked)
    ensures |outcomes| == FirstMalformed(inputFiles)
    ensures fault.None? <==> FirstMalformed(inputFiles) == |inputFiles|
    ensures fault.Some? ==> fault.value == MissingKey(inputFiles[|outcomes|])
    ensures (outcomes, fs.files)
         == ConvertPrefix(old(fs.files), old(fs.dirs), old(fs.locked), inputFiles, targetFormat, env, |outcomes|)
  {
    outcomes := [];
    var i := 0;
    while i < |inputFiles| && inputFiles[i].path.Some? && inputFiles[i].filename.Some?
      invariant 0 <= i <= FirstMalformed(inputFiles) && |outcomes| == i
      invariant fs.dirs == old(fs.dirs) && fs.locked == old(fs.locked)
      invariant (outcomes, fs.files)
             == ConvertPrefix(old(fs.files), old(fs.dirs), old(fs.locked), inputFiles, targetFormat, env, i)
    {
      var f := inputFiles[i];
      assert i < FirstMalformed(inputFiles);
      ghost var before := fs.files;
      var o := ConvertOne(fs, env.codecs, f.path.value, f.filename.value, targetFormat, env.uuids[i], env.now);
      ghost var step := ConvertStep(before, old(fs.dirs), old(fs.locked), env.codecs, f.path.value, f.filename.value,
                                    targetFormat, env.uuids[i], env.now);
      assert step == (o, fs.files);
      assert ConvertPrefix(old(fs.files), old(fs.dirs), old(fs.locked), inputFiles, targetFormat, env, i + 1)
          == (outcomes + [step.0], step.1);
      outcomes := outcomes + [o];
      i := i + 1;
    }
    // A record lacking a key raises `KeyError` out of the loop.
    fault := if i < |inputFiles| then Some(MissingKey(inputFiles[i])) else None;
  }

  // ---------------------------------------------------------------------
  // Aggregation

  /** The `output_files` list: the outputs, in input order. */
  function Outputs(o: seq<Outcome>): (r: seq<OutputFile>)
    ensures |r| <= |o|
  {
    if o == [] then []
    else (if o[0].Converted? then [o[0].file] else []) + Outputs(o[1..])
  }

  /** The `errors` list: the errors, in input order. */
  function Errors(o: seq<Outcome>): (r: seq<FileError>)
    ensures |r| <= |o|
  {
    if o == [] then []
    else (if o[0].Errored? then [o[0].err] else []) + Errors(o[1..])
  }

  /** Each outcome lands in exactly one of the two lists. */
  lemma {:induction false} PartitionCounts(o: seq<Outcome>)
    ensures |Outputs(o)| + |Errors(o)| == |o|
  {
    if o != [] {
      PartitionCounts(o[1..]);
    }
  }

  /** There are no errors exactly when every outcome is an output. */
  lemma {:induction false} NoErrorsIffAllConverted(o: seq<Outcome>)
    ensures Errors(o) == [] <==> forall i :: 0 <= i < |o| ==> o[i].Converted?
    ensures Outputs(o) == [] <==> forall i :: 0 <= i < |o| ==> o[i].Errored?
  {
    if o != [] {
      NoErrorsIffAllConverted(o[1..]);
      assert forall i :: 1 <= i < |o| ==> o[i] == o[1..][i - 1];
    }
  }

  /** The record's `errors` field: the list, or `None` when it is empty. */
  function ErrorsField(errs: seq<FileError>): (r: Option<seq<FileError>>)
    ensures r.None? <==> errs == []
    ensures r.Some? ==> r.value == errs
  {
    if errs == [] then None else Some(errs)
  }

  /** The archive name for a timestamp text. */
  function ZipName(stamp: string): (r: string)
    ensures StartsWith(r, "converted_") && EndsWith(r, ".zip") && |r| == |stamp| + 14
    ensures r[|"converted_"|..|r| - |".zip"|] == stamp
  {
    var r := "converted_" + stamp + ".zip";
    assert r[..|"converted_"|] == "converted_" && r[|r| - 4..] == ".zip";
    r
  }

  /** The record the job returns for its outcomes, as the 0 / 1 / many rule
      decides it; with many outputs the record names the archive, or is a
      `ZIP_FAILED` failure when building the archive failed. */
  predicate ResultMatches(result: TaskResult, taskId: string, processed: nat, outcomes: seq<Outcome>, stamp: string):
    (b: bool)
    ensures b ==> result.taskId == taskId
    ensures b && result.SuccessRecord? ==>
      result.processedFiles == processed && result.successfulFiles == |Outputs(outcomes)| >= 1
  {
    var outs := Outputs(outcomes);
    var errs := Errors(outcomes);
    (outs == [] ==> result == FailedRecord(taskId, ALL_FAILED))
    && (|outs| == 1 ==>
          result == SuccessRecord(taskId, SingleOutput(outs[0].filename, outs[0].path), ErrorsField(errs), processed, 1))
    && (|outs| > 1 && result.SuccessRecord? ==>
          result == SuccessRecord(taskId, ZipOutput(ZipName(stamp), Join(Config.OUTPUT_DIR, ZipName(stamp)), |outs|),
                                  ErrorsField(errs), processed, |outs|))
    && (|outs| > 1 && result.FailedRecord? ==>
          result.taskId == taskId && StartsWith(result.error, Conversions.ZIP_FAILED))
  }

  /** In any success record built from one outcome per input, the
      successes and the reported errors add up to the inputs processed. */
  lemma SuccessCountsAddUp(result: TaskResult, taskId: string, outcomes: seq<Outcome>, stamp: string)
    requires ResultMatches(result, taskId, |outcomes|, outcomes, stamp)
    requires result.SuccessRecord?
    ensures result.successfulFiles == |Outputs(outcomes)| >= 1
    ensures result.successfulFiles
            + (if result.errors.None? then 0 else |result.errors.value|) == result.processedFiles
  {
    PartitionCounts(outcomes);
  }

  /** The paths of the outputs, in order. */
  function PathsOf(outs: seq<OutputFile>): (r: seq<Option<string>>)
    ensures |r| == |outs|
    ensures forall k :: 0 <= k < |outs| ==> r[k] == outs[k].path
  {
    seq(|outs|, k requires 0 <= k < |outs| => outs[k].path)
  }

  /** The files left after `secure_delete_file` has run over `paths` in
      order: a listed path that names a regular file the system lets go
      of is removed; a missing path, a locked file and a `None` entry
      (whose `os.path.exists` raises, which the helper swallows) are
      passed over. */
  function Unlinked(files: map<string, FileEntry>, paths: seq<Option<string>>, locked: set<string>): map<string, FileEntry>
  {
    map p | p in files && !(Some(p) in paths && p !in locked) :: files[p]
  }

  /** Deleting one more path extends the deletions by that path alone. */
  lemma UnlinkedStep(files: map<string, FileEntry>, paths: seq<Option<string>>, locked: set<string>, i: nat)
    requires i < |paths|
    ensures paths[i].Some? && paths[i].value !in locked ==>
      Unlinked(files, paths[..i + 1], locked) == Unlinked(files, paths[..i], locked) - {paths[i].value}
    ensures paths[i].None? || paths[i].value in locked ==>
      Unlinked(files, paths[..i + 1], locked) == Unlinked(files, paths[..i], locked)
  {
    assert paths[..i + 1] == paths[..i] + [paths[i]];
  }

  /** The deletions leave every other file as it was and remove every
      listed file that is not locked. */
  lemma UnlinkedKeepsOthers(files: map<string, FileEntry>, paths: seq<Option<string>>, locked: set<string>)
    ensures forall p :: p in files && Some(p) !in paths ==>
      p in Unlinked(files, paths, locked) && Unlinked(files, paths, locked)[p] == files[p]
    ensures forall k :: 0 <= k < |paths| && paths[k].Some? && paths[k].value !in locked ==>
      paths[k].value !in Unlinked(files, paths, locked)
  {
  }

  /** The clean-up loop after the archive is written: `secure_delete_file`
      on each output path in turn. */
  method DeleteOutputs(fs: FileSystem, paths: seq<Option<string>>)
    modifies fs
    ensures fs.files == Unlinked(old(fs.files), paths, fs.locked)
    ensures fs.dirs == old(fs.dirs) && fs.locked == old(fs.locked)
  {
    var i := 0;
    while i < |paths|
      invariant 0 <= i <= |paths|
      invariant fs.files == Unlinked(old(fs.files), paths[..i], fs.locked)
      invariant fs.dirs == old(fs.dirs) && fs.locked == old(fs.locked)
    {
      UnlinkedStep(old(fs.files), paths, fs.locked, i);
      if paths[i].Some? {
        var deleted := FileUtils.SecureDeleteFile(fs, paths[i].value);
      }
      i := i + 1;
    }
    TakeAll(paths);
  }

  /** The files the job's last step leaves, from `files` after the loop:
      with several outputs the archive is written once it opens, and the
      outputs are deleted only when it was completed. */
  function FinalFiles(files: map<string, FileEntry>, dirs: set<string>, locked: set<string>,
                      outcomes: seq<Outcome>, env: WorkerEnv): (r: map<string, FileEntry>)
    ensures |Outputs(outcomes)| <= 1 ==> r == files
    ensures forall p :: p in files && p != Join(Config.OUTPUT_DIR, ZipName(env.stamp))
                        && Some(p) !in PathsOf(Outputs(outcomes)) ==>
      p in r && r[p] == files[p]
  {
    var outs := Outputs(outcomes);
    if |outs| <= 1 then files
    else
      var paths := PathsOf(outs);
      match env.codecs.zip(Conversions.ZipEntries(files, dirs, paths))
      case OpenFailed(_) => files
      case Closed(data, error) =>
        var zipped := files[Join(Config.OUTPUT_DIR, ZipName(env.stamp)) := FileEntry(data, env.now)];
        if error.Some? || Conversions.Given(paths) < |paths| then zipped
        else
          UnlinkedKeepsOthers(zipped, paths, locked);
          Unlinked(zipped, paths, locked)
  }

  /** The record the job's last step returns, from `files` after the loop:
      with several outputs it is the archive's record exactly when the
      archive was completed with every output in it, and otherwise the
      `ZIP_FAILED` failure for how building it ended. */
  function FinalResult(files: map<string, FileEntry>, dirs: set<string>, taskId: string, processed: nat,
                       outcomes: seq<Outcome>, env: WorkerEnv): (r: TaskResult)
    ensures ResultMatches(r, taskId, processed, outcomes, env.stamp)
    ensures |Outputs(outcomes)| > 1 ==>
      var paths := PathsOf(Outputs(outcomes));
      var run := env.codecs.zip(Conversions.ZipEntries(files, dirs, paths));
      (r.SuccessRecord? <==> run.Closed? && run.error.None? && Conversions.Given(paths) == |paths|)
  {
    var outs := Outputs(outcomes);
    var errs := Errors(outcomes);
    if outs == [] then FailedRecord(taskId, ALL_FAILED)
    else if |outs| == 1 then
      SuccessRecord(taskId, SingleOutput(outs[0].filename, outs[0].path), ErrorsField(errs), processed, 1)
    else
      var paths := PathsOf(outs);
      match env.codecs.zip(Conversions.ZipEntries(files, dirs, paths))
      case OpenFailed(msg) => FailedRecord(taskId, Conversions.ZIP_FAILED + msg)
      case Closed(_, error) =>
        if error.Some? then FailedRecord(taskId, Conversions.ZIP_FAILED + error.value)
        else if Conversions.Given(paths) < |paths| then
          FailedRecord(taskId, Conversions.ZIP_FAILED + Conversions.NONE_PATH_ERROR)
        else
          SuccessRecord(taskId, ZipOutput(ZipName(env.stamp), Join(Config.OUTPUT_DIR, ZipName(env.stamp)), |outs|),
                        ErrorsField(errs), processed, |outs|)
  }

  /** After the loop: no output fails the job; one output is returned as
      it is; several are zipped into the output directory, whose archive
      holds the members `create_zip_archive` collects, and then each
      output is deleted. */
  method Finalize(fs: FileSystem, taskId: string, processed: nat, outcomes: seq<Outcome>, env: WorkerEnv)
    returns (result: TaskResult)
    modifies fs
    ensures ResultMatches(result, taskId, processed, outcomes, env.stamp)
    ensures result == FinalResult(old(fs.files), old(fs.dirs), taskId, processed, outcomes, env)
    ensures fs.dirs == old(fs.dirs) && fs.locked == old(fs.locked)
    ensures fs.files == FinalFiles(old(fs.files), old(fs.dirs), old(fs.locked), outcomes, env)
    ensures |Outputs(outcomes)| <= 1 ==> fs.files == old(fs.files)
    ensures |Outputs(outcomes)| > 1 ==>
      var paths := PathsOf(Outputs(outcomes));
      var zipPath := Join(Config.OUTPUT_DIR, ZipName(env.stamp));
      var run := env.codecs.zip(Conversions.ZipEntries(old(fs.files), old(fs.dirs), paths));
      (run.OpenFailed? ==>
         result == FailedRecord(taskId, Conversions.ZIP_FAILED + run.msg) && fs.files == old(fs.files))
      && (run.Closed? && run.error.Some? ==>
            result == FailedRecord(taskId, Conversions.ZIP_FAILED + run.error.value)
            && fs.files == old(fs.files)[zipPath := FileEntry(run.data, env.now)])
      && (run.Closed? && run.error.None? && Conversions.Given(paths) < |paths| ==>
            result == FailedRecord(taskId, Conversions.ZIP_FAILED + Conversions.NONE_PATH_ERROR)
            && fs.files == old(fs.files)[zipPath := FileEntry(run.data, env.now)])
      && (run.Closed? && run.error.None? && Conversions.Given(paths) == |paths| ==>
            result.SuccessRecord?
            && fs.files == Unlinked(old(fs.files)[zipPath := FileEntry(run.data, env.now)], paths, fs.locked))
    ensures |Outputs(outcomes)| > 1 && result.SuccessRecord? ==>
      forall k :: 0 <= k < |Outputs(outcomes)| ==>
        Outputs(outcomes)[k].path.Some?
        && (Outputs(outcomes)[k].path.value !in fs.locked ==> Outputs(outcomes)[k].path.value !in fs.files)
  {
    var outs := Outputs(outcomes);
    var errs := Errors(outcomes);
    if outs == [] {
      return FailedRecord(taskId, ALL_FAILED);
    }
    if |outs| == 1 {
      return SuccessRecord(taskId, SingleOutput(outs[0].filename, outs[0].path), ErrorsField(errs), processed, 1);
    }
    var zipName := ZipName(env.stamp);
    var zipPath := Join(Config.OUTPUT_DIR, zipName);
    var paths := PathsOf(outs);
    var zipped := Conversions.CreateZipArchive(fs, env.codecs, paths, zipPath, env.now);
    if zipped.Err? {
      return FailedRecord(taskId, zipped.msg);
    }
    DeleteOutputs(fs, paths);
    UnlinkedKeepsOthers(old(fs.files)[zipPath := FileEntry(env.codecs.zip(Conversions.ZipEntries(old(fs.files), old(fs.dirs), paths)).data, env.now)], paths, fs.locked);
    return SuccessRecord(taskId, ZipOutput(zipName, zipPath, |outs|), ErrorsField(errs), processed, |outs|);
  }

  // ---------------------------------------------------------------------
  // The job and its retries

  /** What the job does with an unexpected error at retry count `retries`:
      ask for another run while fewer than `MAX_RETRIES` retries have
      happened, otherwise return a failure record. */
  function RetryRule(taskId: string, retries: nat, exc: string): (r: TaskRun)
    ensures r.RetryRequested? <==> retries < MAX_RETRIES
    ensures r.RetryRequested? ==> r.exc == exc
    ensures r.Returned? ==> r.result == FailedRecord(taskId, UNEXPECTED_PREFIX + exc)
  {
    if retries < MAX_RETRIES then RetryRequested(exc)
    else Returned(FailedRecord(taskId, UNEXPECTED_PREFIX + exc))
  }

  /** `process_conversion_task` for the execution with retry count
      `retries`. A record lacking a key stops the loop and goes to the
      retry rule; otherwise every input has exactly one outcome and the
      record follows the 0 / 1 / many rule. A `ConversionError` comes
      back as a failure record, not as a raised error. */
  method ProcessConversionTask(fs: FileSystem, taskId: string, inputFiles: seq<InputFile>, targetFormat: string,
                               env: WorkerEnv, retries: nat)
    returns (run: TaskRun, ghost outcomes: seq<Outcome>)
    requires UuidsCover(inputFiles, env)
    modifies fs
    ensures fs.dirs == old(fs.dirs) && fs.locked == old(fs.locked)
    ensures var bad := FirstMalformed(inputFiles);
      bad < |inputFiles| ==>
        run == RetryRule(taskId, retries, MissingKey(inputFiles[bad]))
        && (outcomes, fs.files)
           == ConvertPrefix(old(fs.files), old(fs.dirs), old(fs.locked), inputFiles, targetFormat, env, bad)
    ensures FirstMalformed(inputFiles) == |inputFiles| ==>
      var loop := ConvertPrefix(old(fs.files), old(fs.dirs), old(fs.locked), inputFiles, targetFormat, env, |inputFiles|);
      outcomes == loop.0
      && run == Returned(FinalResult(loop.1, old(fs.dirs), taskId, |inputFiles|, outcomes, env))
      && fs.files == FinalFiles(loop.1, old(fs.dirs), old(fs.locked), outcomes, env)
    ensures FirstMalformed(inputFiles) == |inputFiles| ==>
      run.Returned? && |outcomes| == |inputFiles|
      && ResultMatches(run.result, taskId, |inputFiles|, outcomes, env.stamp)
      && forall k :: 0 <= k < |inputFiles| ==>
           Recorded(outcomes[k], inputFiles[k].filename.value, targetFormat, env.uuids[k])
  {
    var found, fault := ConvertInputs(fs, inputFiles, targetFormat, env);
    outcomes := found;
    if fault.Some? {
      return RetryRule(taskId, retries, fault.value), outcomes;
    }
    PrefixRecorded(old(fs.files), old(fs.dirs), old(fs.locked), inputFiles, targetFormat, env, |inputFiles|);
    var result := Finalize(fs, taskId, |inputFiles|, found, env);
    return Returned(result), outcomes;
  }

  /** How one execution of the job ended, as its broker sees it. */
  datatype Attempt = Completes(result: TaskResult) | Raises(exc: string)

  /** What an execution at retry count `retries` leads to. */
  function RunOf(taskId: string, retries: nat, a: Attempt): TaskRun
  {
    match a
    case Completes(result) => Returned(result)
    case Raises(exc) => RetryRule(taskId, retries, exc)
  }

  /** The record a job ends with when its executions go as `attempts`,
      starting at retry count `retries`; `None` while it is still waiting
      for another execution. */
  function Settle(taskId: string, retries: nat, attempts: seq<Attempt>): (r: Option<TaskResult>)
    ensures r.Some? <==> exists k :: 0 <= k < |attempts| && RunOf(taskId, retries + k, attempts[k]).Returned?
    decreases |attempts|
  {
    if attempts == [] then None
    else match RunOf(taskId, retries, attempts[0])
      case Returned(result) => Some(result)
      case RetryRequested(_) =>
        var rest := Settle(taskId, retries + 1, attempts[1..]);
        assert forall k :: 0 < k < |attempts| ==> attempts[k] == attempts[1..][k - 1] && retries + k == retries + 1 + (k - 1);
        rest
  }

  /** A job is never left unresolved: after at most `MAX_RETRIES + 1`
      executions it has a record, and executions beyond those are never used. */
  lemma {:induction false} RetriesAreBounded(taskId: string, retries: nat, attempts: seq<Attempt>)
    requires retries <= MAX_RETRIES
    requires |attempts| > MAX_RETRIES - retries
    ensures Settle(taskId, retries, attempts).Some?
    ensures Settle(taskId, retries, attempts) == Settle(taskId, retries, attempts[..MAX_RETRIES - retries + 1])
    decreases MAX_RETRIES - retries
  {
    var first := attempts[..MAX_RETRIES - retries + 1];
    assert first[0] == attempts[0];
    if RunOf(taskId, retries, attempts[0]).RetryRequested? {
      assert retries < MAX_RETRIES;
      RetriesAreBounded(taskId, retries + 1, attempts[1..]);
      assert first[1..] == attempts[1..][..MAX_RETRIES - (retries + 1) + 1];
    }
  }

  /** When every execution raises, the job ends with the fourth execution's
      error under the unexpected-error prefix. */
  lemma ExhaustedRetriesFail(taskId: string, e0: string, e1: string, e2: string, e3: string)
    ensures Settle(taskId, 0, [Raises(e0), Raises(e1), Raises(e2), Raises(e3)])
         == Some(FailedRecord(taskId, UNEXPECTED_PREFIX + e3))
  {
    var a := [Raises(e0), Raises(e1), Raises(e2), Raises(e3)];
    var b, c, d := a[1..], a[1..][1..], a[1..][1..][1..];
    assert d == [Raises(e3)] && d[1..] == [];
    assert Settle(taskId, 3, d) == Some(FailedRecord(taskId, UNEXPECTED_PREFIX + e3));
    assert Settle(taskId, 2, c) == Settle(taskId, 3, d);
    assert Settle(taskId, 1, b) == Settle(taskId, 2, c);
    assert Settle(taskId, 0, a) == Settle(taskId, 1, b);
  }

  // ---------------------------------------------------------------------
  // The retention sweep

  /** The counts `cleanup_old_files_task` reports. */
  datatype SweepReport = SweepReport(inputDeleted: nat, outputDeleted: nat, totalDeleted: nat)

  /** No file lies below both the input and the output directory. */
  lemma WorkDirsAreDisjoint(p: string)
    ensures !(Below(p, Config.INPUT_DIR) && Below(p, Config.OUTPUT_DIR))
  {
    var a := DirPrefix(Config.INPUT_DIR);
    var b := DirPrefix(Config.OUTPUT_DIR);
    assert |a| > 20 && a[20] == 'i';
    assert |b| > 20 && b[20] == 'o';
    if Below(p, Config.INPUT_DIR) {
      assert p[20] == p[..|a|][20] == 'i';
    }
    if Below(p, Config.OUTPUT_DIR) {
      assert p[20] == p[..|b|][20] == 'o';
    }
  }

  /** `cleanup_old_files_task`: sweeps the input directory, then the output
      directory, with the configured retention; the total is the sum, and
      the two sweeps remove disjoint sets of files. */
  method CleanupOldFilesTask(fs: FileSystem, now: int) returns (r: SweepReport)
    modifies fs
    ensures r.totalDeleted == r.inputDeleted + r.outputDeleted
    ensures var cutoff := FileUtils.RetentionCutoff(Some(Config.FILE_RETENTION_MINUTES), now);
      var gin := if Config.INPUT_DIR in old(fs.dirs) then FileUtils.Expired(old(fs.files), old(fs.locked), Config.INPUT_DIR, cutoff) else {};
      var gout := if Config.OUTPUT_DIR in old(fs.dirs) then FileUtils.Expired(old(fs.files), old(fs.locked), Config.OUTPUT_DIR, cutoff) else {};
      r.inputDeleted == |gin| && r.outputDeleted == |gout| && gin !! gout
      && fs.files == old(fs.files) - gin - gout
    ensures fs.dirs == old(fs.dirs) && fs.locked == old(fs.locked)
  {
    ghost var files0 := fs.files;
    ghost var cutoff := FileUtils.RetentionCutoff(Some(Config.FILE_RETENTION_MINUTES), now);
    var inputDeleted := FileUtils.CleanupOldFiles(fs, Config.INPUT_DIR, Some(Config.FILE_RETENTION_MINUTES), now);
    ghost var gin := if Config.INPUT_DIR in fs.dirs then FileUtils.Expired(files0, fs.locked, Config.INPUT_DIR, cutoff) else {};
    ghost var files1 := fs.files;
    assert files1 == files0 - gin;
    var outputDeleted := FileUtils.CleanupOldFiles(fs, Config.OUTPUT_DIR, Some(Config.FILE_RETENTION_MINUTES), now);
    if Config.OUTPUT_DIR in fs.dirs {
      forall p | p in gin
        ensures !Below(p, Config.OUTPUT_DIR)
      {
        WorkDirsAreDisjoint(p);
      }
      assert FileUtils.Expired(files1, fs.locked, Config.OUTPUT_DIR, cutoff)
          == FileUtils.Expired(files0, fs.locked, Config.OUTPUT_DIR, cutoff);
    }
    r := SweepReport(inputDeleted, outputDeleted, inputDeleted + outputDeleted);
  }
}
