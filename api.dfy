/** The decisions of the HTTP routes (app/routes/api.py): the order of the
    upload checks and the accepted response, the status report built from
    the broker's view of a job, and the guards and media type of a
    download. The web framework, the broker and logging are not modelled;
    the client address, the clock, the UUIDs and the job id are parameters. */
module Api {
  import opened Basics
  import opened PyText
  import opened PyPath
  import opened Fs
  import opened Config
  import opened Security
  import FileUtils
  import Conversions
  import Worker

  /** One uploaded file: its client-side name and its bytes. */
  datatype Upload = Upload(filename: string, content: Blob)

  /** The body of the 202 response to an accepted upload. */
  datatype Accepted = Accepted(statusCode: int, status: string, taskId: string, message: string,
                               filesCount: nat, targetFormat: string)

  /** An upload request either queues a job (the records handed to the
      worker) or is refused. */
  datatype ConvertResponse = Queued(body: Accepted, job: seq<Worker.InputFile>) | Refused(why: Rejection)

  /** The target format as the route reads it: lower-cased, then stripped. */
  function NormalizeTarget(targetFormat: string): (r: string)
    ensures Lower(r) == r
    ensures r == [] || (!IsSpace(r[0]) && !IsSpace(r[|r| - 1]))
  {
    var low := Lower(targetFormat);
    var r := Strip(low);
    LowerHasNoCapitals(targetFormat);
    assert forall c :: c in low ==> !('A' <= c <= 'Z');
    LowerKeepsLowered(r);
    r
  }

  /** The checks made on the request as a whole, after the rate limit:
      too many files, then no files, then the target format. */
  function RequestCheck(count: nat, targetFormat: string): (r: Check)
    ensures r.Pass? <==> 1 <= count <= MAX_FILES_PER_REQUEST && NormalizeTarget(targetFormat) in ALLOWED_EXTENSIONS
    ensures count > MAX_FILES_PER_REQUEST ==> r == Reject(TooManyFiles)
    ensures count == 0 ==> r == Reject(NoFiles)
    ensures 1 <= count <= MAX_FILES_PER_REQUEST && r.Reject? ==>
      r == Reject(InvalidTargetFormat(NormalizeTarget(targetFormat)))
    ensures r.Reject? ==> StatusCode(r.why) == 400
  {
    if count > MAX_FILES_PER_REQUEST then Reject(TooManyFiles)
    else if count == 0 then Reject(NoFiles)
    else if NormalizeTarget(targetFormat) !in ALLOWED_EXTENSIONS then Reject(InvalidTargetFormat(NormalizeTarget(targetFormat)))
    else Pass
  }

  /** The checks made on each file, in order: the name, then extension and
      size, then the conversion pair. */
  function FileCheck(filename: string, size: int, target: string): (r: Check)
    ensures r.Pass? <==>
      CheckMaliciousFilename(filename).Pass? && ValidateUploadFile(filename, size).Pass?
      && ValidateConversionFormat(FileUtils.GetFileExtension(filename), target).Pass?
    ensures CheckMaliciousFilename(filename).Reject? ==> r == CheckMaliciousFilename(filename)
    ensures CheckMaliciousFilename(filename).Pass? && ValidateUploadFile(filename, size).Reject? ==>
      r == ValidateUploadFile(filename, size)
  {
    var name := CheckMaliciousFilename(filename);
    if name.Reject? then name
    else
      var upload := ValidateUploadFile(filename, size);
      if upload.Reject? then upload
      else ValidateConversionFormat(FileUtils.GetFileExtension(filename), target)
  }

  /** A file the route accepts has an allowed extension, one that both
      extension rules read alike, and the worker's dispatcher has a
      strategy for its pair. */
  lemma AcceptedFilesAreRoutable(filename: string, size: int, target: string)
    requires FileCheck(filename, size, target).Pass?
    ensures var source := FileUtils.GetFileExtension(filename);
      source == UploadExtension(filename) && source in ALLOWED_EXTENSIONS
      && size <= MAX_FILE_SIZE
      && Conversions.Route(source, Lower(target)).Some?
  {
    var source := FileUtils.GetFileExtension(filename);
    assert CheckMaliciousFilename(filename).Pass?;
    assert ValidateFileExtension(filename).Pass? && size <= MAX_FILE_SIZE;
    assert ValidateConversionFormat(source, target).Pass?;
    ExtensionRulesAgree(filename);
    assert Lower(source) == source by {
      assert forall i :: 0 <= i < |source| ==> LowerChar(source[i]) == source[i];
    }
    Conversions.SupportedPairsAreRouted(source, Lower(target));
  }

  /** The verdict of each file's checks, in order. */
  function FileChecks(files: seq<Upload>, target: string): (r: seq<Check>)
    ensures |r| == |files|
  {
    seq(|files|, k requires 0 <= k < |files| => FileCheck(files[k].filename, |files[k].content|, target))
  }

  /** Where the first refusal sits among the verdicts, or their number
      when every one passes. */
  function FirstReject(checks: seq<Check>): (n: nat)
    ensures n <= |checks|
    ensures forall k :: 0 <= k < n ==> checks[k].Pass?
    ensures n < |checks| ==> checks[n].Reject?
  {
    if checks == [] || checks[0].Reject? then 0
    else 1 + FirstReject(checks[1..])
  }

  /** Where an upload is saved: its unique name inside the input directory. */
  function UploadPath(filename: string, uuid: string): (r: string)
    requires FileUtils.IsUuidHex(uuid)
    ensures ChildOf(r, INPUT_DIR)
    ensures ChildName(r, INPUT_DIR) == FileUtils.GenerateUniqueFilename(filename, uuid)
  {
    var name := FileUtils.GenerateUniqueFilename(filename, uuid);
    JoinIsChild(INPUT_DIR, name);
    Join(INPUT_DIR, name)
  }

  predicate UuidsFor(ups: seq<Upload>, uuids: seq<string>)
  {
    |uuids| >= |ups| && forall i :: 0 <= i < |ups| ==> FileUtils.IsUuidHex(uuids[i])
  }

  /** Each upload's path and bytes, in order. */
  function Entries(ups: seq<Upload>, uuids: seq<string>): (r: seq<(string, Blob)>)
    requires UuidsFor(ups, uuids)
    ensures |r| == |ups|
  {
    seq(|ups|, k requires 0 <= k < |ups| => (UploadPath(ups[k].filename, uuids[k]), ups[k].content))
  }

  /** The files after the entries are written in turn at time `now`. */
  function Stored(m: map<string, FileEntry>, entries: seq<(string, Blob)>, now: int): map<string, FileEntry>
  {
    if entries == [] then m
    else
      var last := |entries| - 1;
      Stored(m, entries[..last], now)[entries[last].0 := FileEntry(entries[last].1, now)]
  }

  /** A path no entry names keeps what it had. */
  lemma {:induction false} StoredKeepsOthers(m: map<string, FileEntry>, entries: seq<(string, Blob)>, now: int, p: string)
    requires forall k :: 0 <= k < |entries| ==> entries[k].0 != p
    ensures p in Stored(m, entries, now) <==> p in m
    ensures p in m ==> Stored(m, entries, now)[p] == m[p]
  {
    if entries != [] {
      var init := entries[..|entries| - 1];
      assert forall k :: 0 <= k < |init| ==> init[k] == entries[k];
      StoredKeepsOthers(m, init, now, p);
    }
  }

  /** An entry no later entry overwrites is present with its bytes. */
  lemma {:induction false} StoredHoldsLastWrite(m: map<string, FileEntry>, entries: seq<(string, Blob)>, now: int, k: nat)
    requires k < |entries|
    requires forall j :: k < j < |entries| ==> entries[j].0 != entries[k].0
    ensures entries[k].0 in Stored(m, entries, now)
    ensures Stored(m, entries, now)[entries[k].0] == FileEntry(entries[k].1, now)
  {
    var last := |entries| - 1;
    if k < last {
      var init := entries[..last];
      assert forall j :: k <= j < |init| ==> init[j] == entries[j];
      StoredHoldsLastWrite(m, init, now, k);
    }
  }

  /** The records handed to the worker: each saved path with the
      client-side name. */
  function Job(ups: seq<Upload>, uuids: seq<string>): (r: seq<Worker.InputFile>)
    requires UuidsFor(ups, uuids)
    ensures |r| == |ups|
    ensures forall k :: 0 <= k < |ups| ==>
      r[k] == Worker.InputFile(Some(UploadPath(ups[k].filename, uuids[k])), Some(ups[k].filename))
  {
    seq(|ups|, k requires 0 <= k < |ups| => Worker.InputFile(Some(UploadPath(ups[k].filename, uuids[k])), Some(ups[k].filename)))
  }

  /** Jobs queued by the upload route are well formed: the worker never
      meets a record lacking a key, so its retry path is not taken for them. */
  lemma JobsAreWellFormed(ups: seq<Upload>, uuids: seq<string>)
    requires UuidsFor(ups, uuids)
    ensures Worker.FirstMalformed(Job(ups, uuids)) == |ups|
  {
  }

  /** The target formats the route hands over are lower-case, so the
      worker's rasterization test agrees with the dispatcher's choice. */
  lemma WorkerAgreesOnRasterJobs(filename: string, targetFormat: string)
    ensures var target := NormalizeTarget(targetFormat);
      Worker.IsRasterJob(filename, target)
      <==> Conversions.Route(FileUtils.GetFileExtension(filename), Lower(target)) == Some(Conversions.PdfToImages)
  {
  }

  /** The accepted response for `n` files. */
  function AcceptedBody(taskId: string, n: nat, target: string): (r: Accepted)
    ensures r.statusCode == 202 && r.status == "queued" && r.filesCount == n
    ensures r.taskId == taskId && r.targetFormat == target
  {
    Accepted(202, "queued", taskId, "Conversion queued for " + NatToString(n) + " file(s)", n, target)
  }

  /** The loop over the files: each file's verdict is looked at in turn,
      the first refusal stops the loop, and each accepted file is written
      before the next verdict is looked at. */
  method SaveUploads(fs: FileSystem, checks: seq<Check>, entries: seq<(string, Blob)>, now: int)
    returns (refusal: Option<Rejection>)
    requires |checks| == |entries|
    modifies fs
    ensures refusal.None? <==> FirstReject(checks) == |checks|
    ensures refusal.Some? ==> refusal.value == checks[FirstReject(checks)].why
    ensures fs.files == Stored(old(fs.files), entries[..FirstReject(checks)], now)
    ensures fs.dirs == old(fs.dirs) && fs.locked == old(fs.locked)
  {
    var i := 0;
    while i < |checks|
      invariant 0 <= i <= FirstReject(checks)
      invariant fs.files == Stored(old(fs.files), entries[..i], now)
      invariant fs.dirs == old(fs.dirs) && fs.locked == old(fs.locked)
    {
      if checks[i].Reject? {
        return Some(checks[i].why);
      }
      fs.Write(entries[i].0, entries[i].1, now);
      assert entries[..i + 1][..i] == entries[..i];
      i := i + 1;
    }
    return None;
  }

  /** `convert_files`: the rate limit, the request checks and then each
      file's checks, in that order, the first refusal ending the request.
      Each file that passes is saved before the next is checked, so a
      refusal leaves the files already saved in place. When every file
      passes, the job is queued with one record per file. */
  method ConvertFiles(fs: FileSystem, limiter: RateLimiter, clientIp: string, files: seq<Upload>,
                      targetFormat: string, uuids: seq<string>, taskId: string, now: int)
    returns (resp: ConvertResponse)
    requires limiter.Valid()
    requires UuidsFor(files, uuids)
    modifies fs, limiter
    ensures limiter.Valid()
    ensures !limiter.enabled ==> limiter.requests == old(limiter.requests)
    ensures limiter.enabled ==>
      var kept := Recent(old(limiter.Log(clientIp)), now - WINDOW_SECONDS);
      limiter.requests == old(limiter.requests)[clientIp := if |kept| >= limiter.limit then kept else kept + [now]]
    ensures fs.dirs == old(fs.dirs) && fs.locked == old(fs.locked)
    ensures var limited := limiter.enabled && |Recent(old(limiter.Log(clientIp)), now - WINDOW_SECONDS)| >= limiter.limit;
      var pre := RequestCheck(|files|, targetFormat);
      var target := NormalizeTarget(targetFormat);
      var checks := FileChecks(files, target);
      var bad := FirstReject(checks);
      (limited ==> resp == Refused(RateLimited) && fs.files == old(fs.files))
      && (!limited && pre.Reject? ==> resp == Refused(pre.why) && fs.files == old(fs.files))
      && (!limited && pre.Pass? && bad < |files| ==>
            resp == Refused(checks[bad].why)
            && fs.files == Stored(old(fs.files), Entries(files, uuids)[..bad], now))
      && (!limited && pre.Pass? && bad == |files| ==>
            resp == Queued(AcceptedBody(taskId, |files|, target), Job(files, uuids))
            && fs.files == Stored(old(fs.files), Entries(files, uuids), now))
  {
    var rate := limiter.CheckRateLimit(clientIp, now);
    if rate.Reject? {
      return Refused(rate.why);
    }
    var pre := RequestCheck(|files|, targetFormat);
    if pre.Reject? {
      return Refused(pre.why);
    }
    var target := NormalizeTarget(targetFormat);
    var entries := Entries(files, uuids);
    var refusal := SaveUploads(fs, FileChecks(files, target), entries, now);
    if refusal.Some? {
      return Refused(refusal.value);
    }
    TakeAll(entries);
    return Queued(AcceptedBody(taskId, |files|, target), Job(files, uuids));
  }

  // ---------------------------------------------------------------------
  // Status

  /** What the result backend reports for a job: its state name, the record
      it stored, and the text of a failure. */
  datatype BrokerView = BrokerView(state: string, result: Option<Worker.TaskResult>, info: string)

  /** The status response; the `result` and `error` entries are present
      only in the states that set them. */
  datatype StatusResponse = StatusResponse(taskId: string, status: string, message: string,
                                           result: Option<Worker.TaskResult>, error: Option<string>,
                                           downloadUrl: Option<string>)

  const DOWNLOAD_ROUTE: string := "/download/"

  /** The stored record is a success naming an output file. */
  predicate HasDownload(result: Option<Worker.TaskResult>): (b: bool)
    ensures result.None? || result.value.FailedRecord? ==> !b
    ensures b ==> |result.value.output.filename| > 0
  {
    result.Some? && result.value.SuccessRecord? && result.value.output.filename != []
  }

  /** `get_task_status`: one message per state, the record on success,
      the failure text on failure, and a download link only for a success
      record naming a file. */
  function GetTaskStatus(taskId: string, v: BrokerView): (r: StatusResponse)
    ensures r.taskId == taskId && r.status == v.state
    ensures v.state == "PENDING" ==> r.message == "Task is pending"
    ensures v.state == "STARTED" ==> r.message == "Task is processing"
    ensures v.state == "SUCCESS" ==> r.message == "Task completed successfully" && r.result == v.result
    ensures v.state == "FAILURE" ==> r.message == "Task failed"
    ensures v.state !in {"PENDING", "STARTED", "SUCCESS", "FAILURE"} ==> r.message == "Task state: " + v.state
    ensures r.error.Some? <==> v.state == "FAILURE"
    ensures r.error.Some? ==> r.error.value == v.info
    ensures r.result.Some? ==> v.state == "SUCCESS"
    ensures r.downloadUrl.Some? <==> v.state == "SUCCESS" && HasDownload(v.result)
    ensures r.downloadUrl.Some? ==> r.downloadUrl.value == DOWNLOAD_ROUTE + taskId
  {
    var base := StatusResponse(taskId, v.state, "", None, None, None);
    if v.state == "PENDING" then base.(message := "Task is pending")
    else if v.state == "STARTED" then base.(message := "Task is processing")
    else if v.state == "SUCCESS" then
      base.(message := "Task completed successfully", result := v.result,
            downloadUrl := if HasDownload(v.result) then Some(DOWNLOAD_ROUTE + taskId) else None)
    else if v.state == "FAILURE" then base.(message := "Task failed", error := Some(v.info))
    else base.(message := "Task state: " + v.state)
  }

  // ---------------------------------------------------------------------
  // Download

  const ZIP_TYPE: string := "application/zip"
  const PDF_TYPE: string := "application/pdf"
  const DOCX_TYPE: string := "application/vnd.openxmlformats-officedocument.wordprocessingml.document"
  const JPEG_TYPE: string := "image/jpeg"
  const PNG_TYPE: string := "image/png"
  const WEBP_TYPE: string := "image/webp"
  const OCTET_TYPE: string := "application/octet-stream"

  /** The media type of a download: the first suffix that matches among
      zip, pdf, docx, jpg or jpeg, png and webp. */
  function MediaType(filename: string): (r: string)
    ensures r == ZIP_TYPE <==> EndsWith(filename, ".zip")
    ensures r == OCTET_TYPE <==>
      !EndsWith(filename, ".zip") && !EndsWith(filename, ".pdf") && !EndsWith(filename, ".docx")
      && !EndsWith(filename, ".jpg") && !EndsWith(filename, ".jpeg")
      && !EndsWith(filename, ".png") && !EndsWith(filename, ".webp")
  {
    if EndsWith(filename, ".zip") then ZIP_TYPE
    else if EndsWith(filename, ".pdf") then PDF_TYPE
    else if EndsWith(filename, ".docx") then DOCX_TYPE
    else if EndsWith(filename, ".jpg") || EndsWith(filename, ".jpeg") then JPEG_TYPE
    else if EndsWith(filename, ".png") then PNG_TYPE
    else if EndsWith(filename, ".webp") then WEBP_TYPE
    else OCTET_TYPE
  }

  /** The media type each allowed format is served with. */
  const MEDIA_TYPES: map<string, string> := map[
    "pdf" := PDF_TYPE, "docx" := DOCX_TYPE, "jpg" := JPEG_TYPE, "jpeg" := JPEG_TYPE,
    "png" := PNG_TYPE, "webp" := WEBP_TYPE
  ]

  /** Two suffixes that differ at the `j`-th character from the end
      cannot both end the same name. */
  lemma SuffixesDiffer(filename: string, e: string, s: string, j: nat)
    requires EndsWith(filename, e)
    requires j < |e| && j < |s| && e[|e| - 1 - j] != s[|s| - 1 - j]
    ensures !EndsWith(filename, s)
  {
    var n := |filename|;
    assert filename[n - 1 - j] == filename[n - |e|..][|e| - 1 - j];
  }

  /** A name ending in `.pdf`, `.docx`, `.jpg`, `.jpeg`, `.png` or `.webp`
      is served with that format's media type. */
  lemma ServedAsPdf(filename: string)
    requires EndsWith(filename, ".pdf")
    ensures MediaType(filename) == PDF_TYPE
  {
    SuffixesDiffer(filename, ".pdf", ".zip", 0);
  }

  lemma ServedAsDocx(filename: string)
    requires EndsWith(filename, ".docx")
    ensures MediaType(filename) == DOCX_TYPE
  {
    SuffixesDiffer(filename, ".docx", ".zip", 0);
    SuffixesDiffer(filename, ".docx", ".pdf", 0);
  }

  lemma ServedAsJpeg(filename: string, e: string)
    requires e == ".jpg" || e == ".jpeg"
    requires EndsWith(filename, e)
    ensures MediaType(filename) == JPEG_TYPE
  {
    SuffixesDiffer(filename, e, ".zip", 0);
    SuffixesDiffer(filename, e, ".pdf", 0);
    SuffixesDiffer(filename, e, ".docx", 0);
  }

  lemma ServedAsPng(filename: string)
    requires EndsWith(filename, ".png")
    ensures MediaType(filename) == PNG_TYPE
  {
    SuffixesDiffer(filename, ".png", ".zip", 0);
    SuffixesDiffer(filename, ".png", ".pdf", 0);
    SuffixesDiffer(filename, ".png", ".docx", 0);
    SuffixesDiffer(filename, ".png", ".jpg", 2);
    SuffixesDiffer(filename, ".png", ".jpeg", 1);
  }

  lemma ServedAsWebp(filename: string)
    requires EndsWith(filename, ".webp")
    ensures MediaType(filename) == WEBP_TYPE
  {
    SuffixesDiffer(filename, ".webp", ".zip", 3);
    SuffixesDiffer(filename, ".webp", ".pdf", 0);
    SuffixesDiffer(filename, ".webp", ".docx", 0);
    SuffixesDiffer(filename, ".webp", ".jpg", 0);
    SuffixesDiffer(filename, ".webp", ".jpeg", 0);
    SuffixesDiffer(filename, ".webp", ".png", 0);
  }

  /** A file named with an allowed format as its extension is served with
      that format's media type. */
  lemma MediaTypeFollowsExtension(filename: string, format: string)
    requires format in ALLOWED_EXTENSIONS
    requires EndsWith(filename, "." + format)
    ensures format in MEDIA_TYPES && MediaType(filename) == MEDIA_TYPES[format]
  {
    if format == "pdf" {
      assert MediaType(filename) == MEDIA_TYPES[format] by {
        assert "." + format == ".pdf";
        ServedAsPdf(filename);
      }
    } else if format == "docx" {
      assert MediaType(filename) == MEDIA_TYPES[format] by {
        assert "." + format == ".docx";
        ServedAsDocx(filename);
      }
    } else if format == "jpg" || format == "jpeg" {
      assert MediaType(filename) == MEDIA_TYPES[format] by {
        ServedAsJpeg(filename, "." + format);
      }
    } else if format == "png" {
      assert MediaType(filename) == MEDIA_TYPES[format] by {
        assert "." + format == ".png";
        ServedAsPng(filename);
      }
    } else {
      assert format == "webp";
      assert MediaType(filename) == MEDIA_TYPES[format] by {
        assert "." + format == ".webp";
        ServedAsWebp(filename);
      }
    }
  }

  /** For an accepted upload whose name holds only characters the
      sanitizer keeps, the worker names the output after the target format,
      so its download is served with that format's media type. */
  lemma OutputsAreServedAsTheirTarget(filename: string, target: string, uuid: string)
    requires CheckMaliciousFilename(filename).Pass? && filename != []
    requires forall c :: c in filename ==> FileUtils.KeptInName(c)
    requires target in ALLOWED_EXTENSIONS
    requires FileUtils.IsUuidHex(uuid)
    ensures EndsWith(Worker.OutputName(filename, target, uuid), "." + target)
    ensures target in MEDIA_TYPES && MediaType(Worker.OutputName(filename, target, uuid)) == MEDIA_TYPES[target]
  {
    assert forall c :: c in target ==> 'a' <= c <= 'z';
    Worker.OutputNameHasTarget(filename, target, uuid);
    var name := Worker.OutputName(filename, target, uuid);
    MediaTypeFollowsExtension(name, target);
  }

  /** An accepted upload whose stem holds only characters the sanitizer
      drops loses its extension: `@@.png` converted to jpg is named
      `@@.jpg`, which the sanitizer cleans to `.jpg`; a name that starts
      with its only dot has no extension, so the whole of it becomes the
      stem `_jpg`, and the download is served as an octet stream. */
  lemma DroppedStemLosesTarget(uuid: string)
    requires FileUtils.IsUuidHex(uuid)
    ensures CheckMaliciousFilename("@@.png").Pass? && ValidateFileExtension("@@.png").Pass?
    ensures Worker.OutputName("@@.png", "jpg", uuid) == uuid[..12] + "_" + "_jpg"
    ensures MediaType(Worker.OutputName("@@.png", "jpg", uuid)) == OCTET_TYPE
  {
    PassesAts();
    AllowsAts();
    Worker.OutputNameOfDroppedStem(uuid);
    var n := uuid[..12] + "_" + "_jpg";
    assert n[|n| - 4..] == "_jpg";
    assert n[|n| - 5] == '_';
    assert !EndsWith(n, ".zip") && !EndsWith(n, ".pdf") && !EndsWith(n, ".png") && !EndsWith(n, ".jpg");
    assert !EndsWith(n, ".docx") && !EndsWith(n, ".jpeg") && !EndsWith(n, ".webp");
  }

  /** The archive of a multi-file job is served as a zip. */
  lemma ArchivesAreServedAsZip(stamp: string)
    ensures MediaType(Worker.ZipName(stamp)) == ZIP_TYPE
  {
    var z := Worker.ZipName(stamp);
    assert z[|z| - 4..] == ".zip";
  }

  /** The response to a download: the file with its name and media type,
      or a 404 with its reason. */
  datatype DownloadResponse = SendFile(path: string, filename: string, mediaType: string) | NotFound(detail: string)

  const NOT_COMPLETE: string := "Conversion not complete or task not found"
  const CONVERSION_FAILED: string := "Conversion failed"
  const FILE_NOT_FOUND: string := "File not found"

  /** The path recorded in a success record's output. */
  function OutputPathOf(output: Worker.FinalOutput): Option<string>
  {
    match output
    case ZipOutput(_, zipPath, _) => Some(zipPath)
    case SingleOutput(_, path) => path
  }

  /** The download guards, in order: the state must be SUCCESS, the record
      a success, and its path non-empty and still present. */
  function Download(fs: FileSystem, v: BrokerView): (r: DownloadResponse)
    reads fs
    ensures v.state != "SUCCESS" ==> r == NotFound(NOT_COMPLETE)
    ensures v.state == "SUCCESS" && !(v.result.Some? && v.result.value.SuccessRecord?) ==>
      r == NotFound(CONVERSION_FAILED)
    ensures r.SendFile? <==>
      v.state == "SUCCESS" && v.result.Some? && v.result.value.SuccessRecord?
      && var p := OutputPathOf(v.result.value.output); p.Some? && p.value != [] && fs.Exists(p.value)
    ensures r.NotFound? && v.state == "SUCCESS" && v.result.Some? && v.result.value.SuccessRecord? ==>
      r == NotFound(FILE_NOT_FOUND)
    ensures r.SendFile? ==>
      Some(r.path) == OutputPathOf(v.result.value.output)
      && r.filename == v.result.value.output.filename
      && r.mediaType == MediaType(r.filename)
  {
    if v.state != "SUCCESS" then NotFound(NOT_COMPLETE)
    else if v.result.None? || !v.result.value.SuccessRecord? then NotFound(CONVERSION_FAILED)
    else
      var output := v.result.value.output;
      var p := OutputPathOf(output);
      if p.None? || p.value == [] || !fs.Exists(p.value) then NotFound(FILE_NOT_FOUND)
      else SendFile(p.value, output.filename, MediaType(output.filename))
  }

  /** The link in a status response and the download route agree: a
      download that is served was linked when its file has a name, and a
      linked file that still exists is served. */
  lemma StatusLinksAgreeWithDownload(fs: FileSystem, taskId: string, v: BrokerView)
    ensures Download(fs, v).SendFile? && Download(fs, v).filename != [] ==>
      GetTaskStatus(taskId, v).downloadUrl.Some?
    ensures GetTaskStatus(taskId, v).downloadUrl.Some? ==>
      var p := OutputPathOf(v.result.value.output);
      (p.Some? && p.value != [] && fs.Exists(p.value) <==> Download(fs, v).SendFile?)
  {
  }

  /** A conversion failure is stored as a returned record, so the broker
      reports SUCCESS; the routes still offer no link and refuse the
      download as a failed conversion. */
  lemma FailedRecordsAreNotDownloadable(fs: FileSystem, taskId: string, record: Worker.TaskResult, info: string)
    requires record.FailedRecord?
    ensures GetTaskStatus(taskId, BrokerView("SUCCESS", Some(record), info)).downloadUrl.None?
    ensures Download(fs, BrokerView("SUCCESS", Some(record), info)) == NotFound(CONVERSION_FAILED)
  {
  }
}
