# FileConverter Pro — a verified model of its conversion core

FileConverter Pro is a web service that converts uploaded files: images are
re-encoded (PNG, JPEG, WebP) or bound into a PDF, PDFs are turned into Word
documents or rasterized to images, and Word documents are rendered to PDF
through LibreOffice. An upload route validates the request and each file,
stores the files under unique names in an input directory and queues a
Celery job. The worker converts the files one by one into an output
directory, zips the results when there are several, and stores a result
record that a status route reports and a download route serves. A periodic
task deletes old files from both directories.

This project models that core in Dafny:

- `basics.dfy`, `text.dfy` and `path.dfy` hold what the service borrows
  from Python: `Option`, the ASCII case mappings, `strip`, `startswith`,
  and the POSIX path functions `basename`, `join`, `splitext` and the
  `pathlib` name and suffix.
- `filesystem.dfy` is a small file system: a `FileSystem` class with
  files (bytes and a modification time), directories and a set of paths
  the system refuses to remove. Every operation that touches disk takes
  it as a parameter and states how it changes.
- `config.dfy` models the settings tables and the Redis and Celery URL
  fallbacks (`app/config.py`).
- `file_utils.dfy` models the naming and sweeping helpers
  (`app/utils/file_utils.py`).
- `security.dfy` models the validation checks, the input sanitizer and
  the rate limiter (`app/utils/security.py`). The rate limiter is a class
  with a request log and a `now` parameter.
- `conversions.dfy` models the conversion strategies, the dispatcher and
  the zip archiver (`app/services/conversions.py`). The external
  libraries (Pillow, pdf2image, pdf2docx, img2pdf, LibreOffice) become
  `Codecs`: a parameter record of total functions with explicit failure
  results.
- `storage.dfy` models the local storage provider
  (`app/services/storage.py`).
- `worker.dfy` models `process_conversion_task` (the per-file loop, the
  0 / 1 / many rule, the result record and the retry rule) and
  `cleanup_old_files_task` (`app/workers/celery_worker.py`).
- `api.dfy` models the upload route's validation order and its 202
  response, the status route and the download route (`app/routes/api.py`).

Random UUIDs, the clock and the task identifier are parameters. The
broker's view of a task is a parameter too.

Four consequences of the code are easy to miss, and the model keeps them:
- a PDF rasterized to an image yields only its first page as the job's
  output; the other pages stay in the output directory;
- the temporary RGB copies of an images-to-PDF job, and the pages already
  saved by a failed rasterization, stay on disk after a failure;
- opening the archive creates it, so an archive that fails while being
  written stays in the output directory next to the outputs;
- a conversion failure is stored as a returned record, so the broker
  reports `SUCCESS` for it.

## Model

| member | source | states |
|---|---|---|
| Config.RedisUrl | app/config.py:28-33 | REDIS_URL wins when it is set and non-empty; otherwise the URL is `redis://`, the host, a colon, then the port and the database number in decimal separated by `/` |
| Config.CeleryBroker | app/config.py:45-48 | the broker override wins when it is non-empty; otherwise it is exactly the Redis URL |
| Config.CeleryBackend | app/config.py:50-53 | the result-backend override wins when it is non-empty; otherwise it is exactly the Redis URL |
| Config.DefaultUrls | app/config.py:23-53 | with nothing overridden, broker and backend are both `redis://redis:6379/0` |
| Config.SupportedFormatsAreAllowed | app/config.py:75-87 | every source and every target of a supported conversion is an allowed extension |
| Config.NoConversionToItself | app/config.py:80-87 | no format is offered as a conversion to itself |
| FileUtils.CleanName | app/utils/file_utils.py:28-31 | the result holds only characters the sanitizer keeps, and no path separator |
| FileUtils.SafeStem | app/utils/file_utils.py:34-44 | the stem is non-empty, at most 200 characters, and has no dots or separators |
| FileUtils.SanitizeFilename | app/utils/file_utils.py:17-46 | the name splits into the safe stem and the cleaned extension, and holds no path separator |
| FileUtils.SanitizeIdempotent | app/utils/file_utils.py:17-46 | sanitizing a sanitized name changes nothing |
| FileUtils.GenerateUniqueFilename | app/utils/file_utils.py:49-62 | the first 12 UUID digits, an underscore, then the sanitized name; the extension survives |
| FileUtils.UniqueNameKeepsExtension | app/utils/file_utils.py:49-62 | a name that is already clean keeps exactly its own extension under the unique prefix |
| FileUtils.GetFileExtension | app/utils/file_utils.py:65-76 | the `splitext` extension without its dot, lower-cased; empty when there is none |
| PyPath.SplitExt | app/utils/file_utils.py:34 | stem and extension concatenate back to the path; the extension is empty or a dot followed by text without dots or separators |
| PyPath.SplitExtLeadingDot | app/utils/file_utils.py:34 | a leading dot belongs to the stem: `.jpg` has no extension |
| FileUtils.SanitizeDroppedStem | app/utils/file_utils.py:28-46 | `@@.jpg` sanitizes to `_jpg`: the dropped characters leave a leading dot, which `splitext` puts in the stem |
| FileUtils.OutputFilenameHasTarget | app/utils/file_utils.py:256-268 | for a plain file name, the output name keeps the input's stem and takes the target as its extension |
| FileUtils.GetConversionOutputFilename | app/utils/file_utils.py:256-268 | starts with the `splitext` stem of the input and ends with a dot and the target, and is exactly that long |
| FileUtils.Expired | app/utils/file_utils.py:123-144 | exactly the removable files below the directory modified strictly before the cutoff |
| FileUtils.SweepIsIdempotent | app/utils/file_utils.py:112-155 | a second sweep with the same cutoff finds nothing left to remove |
| FileUtils.RetentionCutoff | app/utils/file_utils.py:123-130 | the cutoff lies the given number of minutes, or the configured retention, before now |
| FileUtils.CleanupOldFiles | app/utils/file_utils.py:112-155 | removes exactly the expired files, returns how many, and leaves directories and every other file alone |
| FileUtils.SecureDeleteFile | app/utils/file_utils.py:158-176 | true exactly when a removable regular file was there; only that file disappears |
| FileUtils.ListFilesInDirectory | app/utils/file_utils.py:230-253 | each matching regular file of the directory exactly once, in some order; extension filter compared case-insensitively; nothing for a missing directory |
| FileUtils.GetDirectorySize | app/utils/file_utils.py:179-200 | the sum of the sizes of every file below the directory; zero for a path that is not a directory |
| Security.StatusCode | app/utils/security.py:106-112 | 413 exactly for an oversized file, 429 exactly for rate limiting, 400 otherwise |
| Security.CheckMaliciousFilename | app/utils/security.py:144-178 | passes exactly when there is no `..`, no separator, no NUL and no leading dot; traversal is reported before NUL, NUL before a hidden name |
| Security.UploadExtension | app/utils/security.py:82 | the `pathlib` suffix without its dot, lower-cased; empty when the name has no suffix |
| Security.ValidateFileExtension | app/utils/security.py:69-90 | passes exactly when the upload extension is allowed; otherwise it names that extension |
| Security.ValidateFileSize | app/utils/security.py:93-114 | passes exactly when the size is at most the maximum; otherwise a 413 naming the size |
| Security.ValidateUploadFile | app/utils/security.py:117-141 | passes exactly when the extension is allowed and the size is at most the maximum; an extension refusal is reported first, and a file of allowed extension gets the size check's verdict, so an oversized one is refused with 413 |
| Security.ValidateConversionFormat | app/utils/security.py:181-211 | passes exactly when the lower-cased pair is supported; an unknown source is reported before an unsupported target |
| Security.ExtensionRulesAgree | app/utils/security.py:82-84 | for a name that passes the malicious-name check, the upload validator and the worker read the same extension |
| Security.SanitizeInput | app/utils/security.py:255-275 | the result has no control characters, only characters of the input, no surrounding white space, and is no longer than the bound |
| Security.SanitizeInputKeepsCleanText | app/utils/security.py:255-275 | clean, short, already stripped text comes back unchanged |
| Security.Recent | app/utils/security.py:233-237 | keeps exactly the timestamps after the cutoff, each as many times as the log holds it |
| Security.RecentOfConcat | app/utils/security.py:233-237 | pruning a log is pruning its parts in turn, so the kept timestamps stay in log order; one timestamp is kept exactly when it is after the cutoff |
| Security.RateLimiter.constructor | app/utils/security.py:26 | every client starts with an empty log |
| Security.RateLimiter.CheckRateLimit | app/utils/security.py:214-252 | with limiting off, passes and changes nothing; otherwise prunes the client's log to the window, refuses when the pruned log is full and records the request when it is not; other clients untouched; no log exceeds the limit |
| Conversions.Flatten | app/services/conversions.py:57-63 | an RGB image; a palette image is converted to RGBA first, and the alpha mask is used exactly when the image is RGBA by then |
| Conversions.PrepareForTarget | app/services/conversions.py:57-63 | only a JPEG target with alpha or a palette is flattened; anything else is saved as it is |
| Conversions.SaveOptionsFor | app/services/conversions.py:66-74 | quality for JPEG and WebP, method 6 for WebP, optimize for JPEG and PNG, nothing for any other target |
| Conversions.JpgTargetHasNoWriterAsWritten | app/services/conversions.py:76 | as written, the name handed to Pillow for a `jpg` target is `JPG`, which names no writer |
| Conversions.PillowFormat | app/services/conversions.py:76 | both JPEG spellings map to Pillow's `JPEG`; other targets are upper-cased |
| Conversions.EveryImageTargetHasWriter | app/services/conversions.py:76 | with the corrected mapping, every image target in any letter case names a Pillow writer |
| Conversions.PageSaveFormat | app/services/conversions.py:206-209 | either JPEG spelling saves as JPEG at quality 95; other formats are upper-cased; always optimized |
| Conversions.PageNamesDistinct | app/services/conversions.py:201-203 | different pages of one PDF get different file names |
| Conversions.TempPath | app/services/conversions.py:120 | the temporary copy is the image path with `.rgb.jpg` appended, so it ends in that suffix |
| Conversions.OneDotNamesAreNotTemp | app/services/conversions.py:130-133 | a stored upload name (at most one dot) never looks like a temporary copy, so the clean-up never removes an input |
| Conversions.Route | app/services/conversions.py:306-331 | re-encoding exactly for image to image, images-to-PDF exactly for image to `pdf`, PDF-to-DOCX, rasterization and DOCX-to-PDF each exactly for their pairs |
| Conversions.SupportedPairsAreRouted | app/services/conversions.py:306-331 | every pair the configuration offers reaches a strategy |
| Conversions.RouteIgnoresCase | app/services/conversions.py:306-331 | formats written in capitals reach the same strategy as in lower case |
| Conversions.ImageEffect | app/services/conversions.py:54-83 | a failure carries the image-conversion prefix and changes no file; success names the output, which then exists; an input that does not decode fails |
| Conversions.ConvertImage | app/services/conversions.py:54-83 | its outcome and the new files are `ImageEffect` of the old files: on success the output holds the prepared image saved with the target's options; an undecodable input fails; a failure carries the image-conversion prefix and changes no file |
| Conversions.PrepareFrom | app/services/conversions.py:105-124 | the list only grows; without an error it has one entry per input; each new entry is the input or its temporary copy; only temporary copies are added to the files |
| Conversions.PrepareImages | app/services/conversions.py:105-124 | the loop ends with the list, files and error `PrepareFrom` computes from the old files |
| Conversions.PreparedFollowsModes | app/services/conversions.py:107-124 | when no input is named like a temporary copy, entry k is the temporary copy of input k exactly when that input opens with mode RGBA, LA or P, and the input itself when it opens with any other mode |
| Conversions.RemoveTempsFrom | app/services/conversions.py:130-133 | only temporary copies are removed; without an error no temporary copy of the list remains |
| Conversions.RemoveTemps | app/services/conversions.py:130-133 | the loop ends with the files and error `RemoveTempsFrom` computes from the old state |
| Conversions.ConvertImagesToPdf | app/services/conversions.py:103-140 | its outcome and the new files are `ImagesToPdfEffect` of the old files, directories and locked paths; `processed` is the list the first loop builds, which `PreparedFollowsModes` and `ImagesToPdfWritesThePdf` describe |
| Conversions.ImagesToPdfWritesThePdf | app/services/conversions.py:126-133 | on success the output holds img2pdf's PDF of the bytes of the prepared list, no temporary copy of the list remains, and every other file that is not a temporary copy is as it was |
| Conversions.ConvertPdfToDocx | app/services/conversions.py:160-170 | its outcome and the new files are `PdfToDocxEffect` of the old files: the output holds the converter's document on success; a failure carries the PDF-to-DOCX prefix and changes no file |
| Conversions.PdfToDocxEffect | app/services/conversions.py:160-170 | a failure carries the PDF-to-DOCX prefix and changes no file; success names the output, which then exists; no other path changes |
| Conversions.ConvertPdfToImages | app/services/conversions.py:194-218 | the loop ends with the files `SavePagesFrom` computes from the old files: it succeeds exactly when that run saved every page, with the page names for pages 1 to n in page order; a failed save fails with its message under the PDF-to-images prefix, keeping the pages saved before it; a failed rasterization changes no file |
| Conversions.PagePathsAt | app/services/conversions.py:201-214 | the k-th returned path (counting from zero) is the page name numbered k + 1, because the page count starts at one |
| Conversions.SavePagesFrom | app/services/conversions.py:201-211 | saving pages from the i-th on removes no file, and a run without error has written the page names numbered i + 1 to n |
| Conversions.SavedPagesExist | app/services/conversions.py:198-214 | after a run that saved every page, each returned page path exists |
| Conversions.PdfToImagesEffect | app/services/conversions.py:320-324 | a failure carries the PDF-to-images prefix; a produced path is the first page's name in the output's directory and exists; no file is removed |
| Conversions.ConvertDocxToPdf | app/services/conversions.py:238-282 | its outcome and the new files are `DocxToPdfEffect` of the old files and directories: timeout, failed launch, non-zero exit and missing output each fail with their own message; otherwise LibreOffice's PDF ends up at the output path |
| Conversions.DocxToPdfEffect | app/services/conversions.py:238-282 | a failure carries the DOCX-to-PDF prefix or is the timeout message; success names the output, which then exists as a file or directory |
| Conversions.DocxToPdfTouchesTwoPaths | app/services/conversions.py:238-282 | only LibreOffice's output path and the requested output can change |
| Conversions.ConvertPdfToFirstPage | app/services/conversions.py:320-324 | its outcome and the new files are `PdfToImagesEffect` of the old files; a failed rasterization fails with its message and changes no file; no path exactly when the PDF has no page; otherwise the first page's name, and every page was written |
| Conversions.ConvertFile | app/services/conversions.py:306-331 | its outcome and new files are `ConversionEffect` of the old state: an unsupported lower-cased pair fails before any strategy runs and changes no file; on each route the outcome and new files are that strategy's effect; a rasterization yields its first page, or no path exactly when the PDF has no page |
| Conversions.ConversionEffectByRoute | app/services/conversions.py:306-331 | an unrouted pair fails with the unsupported message and changes no file; a routed failure carries its strategy's prefix or is the timeout message; every strategy but rasterization produces exactly the requested output path |
| Conversions.ZipHoldsExactlyTheExistingFiles | app/services/conversions.py:345-348 | the archive holds exactly the listed paths that exist, up to the first missing one, each under its base name |
| Conversions.CollectEntries | app/services/conversions.py:345-348 | the loop collects exactly the archive members of the existing paths, in order, and reports how many paths it got through before the first missing one |
| Conversions.CreateZipArchive | app/services/conversions.py:333-355 | when the archive cannot be opened, fails and changes no file; once it is opened, the archive at the zip path holds what was written before any error, even when writing then fails or a path is missing; it succeeds exactly when every path is given and writing succeeds |
| Storage.SelectProvider | app/services/storage.py:292-302 | S3 exactly for the storage type `s3`, local storage otherwise |
| Storage.LocalTempStorage.constructor | app/services/storage.py:49-58 | the input and output directories are created and no file changes |
| Storage.LocalTempStorage.GetFilePath | app/services/storage.py:84-105 | the output copy when it exists, else the input copy when it exists, else the output path |
| Storage.LocalTempStorage.GetDownloadUrl | app/services/storage.py:107-118 | the key under the download route, and stripping the route gives the key back |
| Storage.LocalTempStorage.UploadFile | app/services/storage.py:60-82 | succeeds exactly when the file is already at the key, or exists and its copy target (the key, or the key directory's base-name child) is another path; the copy takes bytes and modification time; a missing file, or a copy onto itself through the directory, fails with the same-file message and changes nothing |
| Storage.LocalTempStorage.DeleteFile | app/services/storage.py:120-139 | removes only the resolved file, true exactly when it was a removable regular file |
| Storage.LocalTempStorage.GetStorageUsage | app/services/storage.py:141-166 | byte totals of both trees and their sum, and the counts of regular files directly in each directory |
| Worker.OutputName | app/workers/celery_worker.py:85-91 | the UUID digits, an underscore, and the sanitized output name; it holds no separator |
| Worker.OutputNameHasTarget | app/workers/celery_worker.py:85-91 | for a clean input name and a lower-case target, the output name's extension is the target format, so the name ends in `.` and the target |
| Worker.OutputNameOfDroppedStem | app/workers/celery_worker.py:85-91 | `@@.png` converted to `jpg` is named `<12 digits>__jpg`, without the target as extension |
| Worker.IsRasterJob | app/workers/celery_worker.py:104 | a job the worker treats as a rasterization is routed to the rasterizer |
| Worker.ConvertOne | app/workers/celery_worker.py:81-132 | its outcome and the new files are `ConvertStep` of the old state, so the file is converted exactly as the dispatcher converts it, to the unique output path |
| Worker.OutcomeOf | app/workers/celery_worker.py:103-132 | the outcome keeps the original name; it is an error exactly when the dispatcher failed, with its message, or when a rasterization produced no page; a converted file keeps the produced path |
| Worker.OutputPath | app/workers/celery_worker.py:86-91 | a direct child of the output directory named by the unique output name |
| Worker.ConvertStep | app/workers/celery_worker.py:81-132 | the outcome of converting one well-formed record is recorded under its original name and, for a converted file, its output name |
| Worker.StepRoutes | app/workers/celery_worker.py:83-101 | an unsupported pair is an error with the dispatcher's message and no file change; a file converted by any strategy but rasterization is recorded at its unique output path |
| Worker.FirstMalformed | app/workers/celery_worker.py:77-79 | the index of the first record lacking a key, or the number of records |
| Worker.ConvertInputs | app/workers/celery_worker.py:77-132 | one outcome per record up to the first malformed one, and the outcomes and new files are `ConvertPrefix` of the old state; a fault exactly when such a record exists, naming its missing key |
| Worker.ConvertPrefix | app/workers/celery_worker.py:77-132 | the loop over the first n records converts each in turn, threading the files, and yields one outcome per record |
| Worker.PrefixIsRecorded | app/workers/celery_worker.py:77-132 | the k-th outcome of the loop is recorded under the k-th record's name and UUID |
| Worker.PrefixRecorded | app/workers/celery_worker.py:77-132 | every outcome of the loop is recorded under its own record's name and UUID |
| Worker.PartitionCounts | app/workers/celery_worker.py:96-132 | every outcome lands in exactly one of the output and error lists |
| Worker.NoErrorsIffAllConverted | app/workers/celery_worker.py:174 | the error list is empty exactly when every outcome is an output |
| Worker.ErrorsField | app/workers/celery_worker.py:174 | the errors field is absent exactly when there are no errors; otherwise it holds them |
| Worker.SuccessCountsAddUp | app/workers/celery_worker.py:170-178 | in a success record, successes are at least one and successes plus errors equal the inputs processed |
| Worker.Finalize | app/workers/celery_worker.py:134-178 | the record is `FinalResult` and the new files are `FinalFiles` of the old state; no output: "All conversions failed"; one output: returned as it is, files untouched; several: an archive that cannot be opened fails and changes no file; once opened, the archive `converted_<stamp>.zip` in the output directory is written even when writing fails or a path is missing, and the job then fails; otherwise the outputs are unlinked as `Unlinked` says |
| Worker.FinalFiles | app/workers/celery_worker.py:138-162 | with at most one output the files are unchanged; every file that is neither the archive nor an output keeps its entry |
| Worker.FinalResult | app/workers/celery_worker.py:134-178 | the record follows the 0 / 1 / many rule; with several outputs it is the archive's success record exactly when the archive closed without error and every output had a path, and otherwise a `ZIP_FAILED` failure |
| Worker.UnlinkedKeepsOthers | app/workers/celery_worker.py:154-156 | after the outputs are unlinked, a file no output names keeps its entry, and a removable output is gone |
| Worker.DeleteOutputs | app/workers/celery_worker.py:154-156 | the clean-up loop leaves exactly `Unlinked` of the old files; directories and locked paths are unchanged |
| Worker.ZipName | app/workers/celery_worker.py:141 | `converted_`, the timestamp and `.zip`; the timestamp can be read back from the name |
| Worker.ResultMatches | app/workers/celery_worker.py:134-178 | a matching record carries the task id; a success record counts the processed inputs and at least one output |
| Worker.RetryRule | app/workers/celery_worker.py:192-206 | a retry exactly while fewer than three retries happened; afterwards a failure record with the unexpected-error prefix |
| Worker.Settle | app/workers/celery_worker.py:192-206 | the job gets a record exactly when one of its executions returns one |
| Worker.ProcessConversionTask | app/workers/celery_worker.py:50-206 | a malformed record goes to the retry rule after the loop has converted the records before it; otherwise the returned record is `FinalResult` and the files are `FinalFiles` of the loop's files, and the record follows the 0 / 1 / many rule over one outcome per input, each recorded under its own record |
| Worker.RetriesAreBounded | app/workers/celery_worker.py:192-206 | after at most four executions the job has a record, and later executions are never used |
| Worker.ExhaustedRetriesFail | app/workers/celery_worker.py:198-206 | when every execution raises, the job fails with the fourth error under the unexpected-error prefix |
| Worker.WorkDirsAreDisjoint | app/config.py:58-59 | no file lies below both the input and the output directory |
| Worker.CleanupOldFilesTask | app/workers/celery_worker.py:209-239 | the total is the sum of both sweeps; the swept sets are disjoint, each count is its set's size, and only those files go |
| Api.NormalizeTarget | app/routes/api.py:69 | the result is lower case with no white space at either end |
| Api.RequestCheck | app/routes/api.py:58-74 | passes exactly for 1 to the maximum number of files and an allowed normalized target; too many is reported before none, none before a bad target |
| Api.FileCheck | app/routes/api.py:79-90 | passes exactly when name, extension and size, and the conversion pair all pass; refusals come in that order |
| Api.AcceptedFilesAreRoutable | app/routes/api.py:79-90 | an accepted file has an allowed extension of at most the maximum size, both extension rules agree, and the dispatcher has a strategy for it |
| Api.FirstReject | app/routes/api.py:79-90 | the index of the first refusal, or the number of files when all pass |
| Api.UploadPath | app/routes/api.py:93-94 | a direct child of the input directory named by the unique filename |
| Api.Job | app/routes/api.py:104-116 | one record per upload, in order, with the stored path and the original name |
| Api.StoredKeepsOthers | app/routes/api.py:96-99 | a path no upload names keeps its content |
| Api.StoredHoldsLastWrite | app/routes/api.py:96-99 | an upload no later upload overwrites is on disk with its bytes |
| Api.JobsAreWellFormed | app/routes/api.py:104-116 | a queued job never holds a record lacking a key, so the worker never takes the retry path for it |
| Api.WorkerAgreesOnRasterJobs | app/workers/celery_worker.py:104 | for a queued target, the worker's rasterization test agrees with the dispatcher's choice |
| Api.AcceptedBody | app/routes/api.py:123-131 | status 202, `queued`, the task id, the file count in the message and the field, and the normalized target |
| Api.SaveUploads | app/routes/api.py:79-109 | stops at the first refusal, returning it; the files before it are saved in order |
| Api.ConvertFiles | app/routes/api.py:34-138 | rate limit, request checks and file checks in that order; a refusal keeps the uploads saved before it; otherwise 202 with a job naming every saved upload; with limiting on, the client's log becomes its pruned log, plus this request unless that log is full; with limiting off no log changes |
| Api.GetTaskStatus | app/routes/api.py:157-183 | one message per broker state; the record on success; the error text on failure; a download link exactly for a success record naming a file |
| Api.HasDownload | app/routes/api.py:172-178 | a missing or failure record has no link; a linked record names a file |
| Api.MediaType | app/routes/api.py:235-248 | zip exactly for `.zip` names; octet-stream exactly for names ending in none of the known suffixes |
| Api.MediaTypeFollowsExtension | app/routes/api.py:235-248 | a name ending in an allowed format is served with that format's media type |
| Api.OutputsAreServedAsTheirTarget | app/routes/api.py:235-248 | for an accepted upload whose name holds only characters the sanitizer keeps, the output is named after the target and served with the target's media type |
| Api.DroppedStemLosesTarget | app/utils/file_utils.py:31-35 | the restriction is needed: `@@.png` is accepted, its `jpg` output is named `<12 digits>__jpg`, and it is served as an octet stream |
| Api.ArchivesAreServedAsZip | app/routes/api.py:235-236 | a multi-file job's archive is served as a zip |
| Api.Download | app/routes/api.py:211-254 | not SUCCESS, not a success record, and a missing or vanished path are refused in that order; otherwise the file is sent with its media type |
| Api.StatusLinksAgreeWithDownload | app/routes/api.py:168-178 | a served download was linked when its file has a name; a linked file that still exists is served |
| Api.FailedRecordsAreNotDownloadable | app/routes/api.py:219-222 | a failure record gets no link and its download is refused as a failed conversion |

## Left out

- The health check, the HTML pages, the application setup, the logger and
  the Celery application object: they wire the core together and hold no
  logic of their own.
- `validate_mime_type` and `calculate_checksum`: they call libmagic and
  hashlib, whose results the model cannot state.
- `format_file_size` and the floating-point megabyte texts in error
  messages: floating point is not modelled. The refusals carry the size
  itself.
- `S3Storage`: it calls boto3 and the network. Only the provider choice is
  modelled.
- Celery scheduling, `AsyncResult` and the worker's heartbeat and storage
  statistics tasks: the broker's view of a task is a parameter.
- The `duration_ms` field and all logging: the clock is outside the model.
- The HTTP 500 paths: a failure while an upload is written, and any other
  unexpected exception in a route.
- The exact `detail` texts of the 400, 413 and 429 refusals: the model
  returns the refusal's reason instead.
- The outer failure branch of `cleanup_old_files_task`: the sweep catches
  its own errors, so that branch is not reached in the model.
- `os.path.abspath` and path normalisation: paths are compared as written.
- Case mappings and `\w` cover ASCII only. Python's full Unicode tables
  are not modelled.
- `getmtime` and `os.remove` failures: modelled only as a set of paths
  the system refuses to remove.
- Concurrent requests sharing the rate-limit table: each call is atomic in
  the model.
- The file system keeps `files` and `dirs` unlinked: a file needs no parent
  directory, and "below a directory" means the path starts with the
  directory and a separator.
- The retry path of `process_conversion_task` is reached only through a
  record lacking a key. Other unexpected exceptions (from the broker,
  from logging, or from a file operation the model treats as total) are
  not modelled.
- Conversions.ConvertImage: it saves with the corrected `PillowFormat`.
  The code as written fails on `jpg` targets; see Findings.

## Findings

| source | as written | input that shows it | evidently intended | confidence | as-written member | corrected member |
|---|---|---|---|---|---|---|
| app/services/conversions.py:76 | the image is saved with `format=target_format.upper()` | a PNG or WebP upload with target `jpg`: Pillow gets format `JPG`, which names no writer, and the job reports "Image conversion failed: 'JPG'" | map `jpg` to Pillow's `JPEG`, as the rasterizer does at conversions.py:206-207 | medium, not executed | Conversions.JpgTargetHasNoWriterAsWritten | Conversions.EveryImageTargetHasWriter |
