/** The conversion strategies and their dispatcher
    (app/services/conversions.py). Pillow, img2pdf, pdf2docx, pdf2image,
    the LibreOffice process and zipfile are oracles: total functions of
    the bytes they read, supplied in a `Codecs` value. Everything the
    converter decides around them, and every file it writes or removes,
    is modelled. */
module Conversions {
  import opened Basics
  import opened PyText
  import opened PyPath
  import opened Fs
  import Config

  /** A decoded raster image: its Pillow mode and its pixel data. */
  datatype Image = Image(mode: string, pixels: Blob)

  /** The keyword options passed to Pillow's `save`; `effort` is the WebP
      encoder's `method` setting. */
  datatype SaveOptions = SaveOptions(quality: Option<int>, optimize: bool, effort: Option<int>)

  /** How the LibreOffice process ended: it exited with a code, an error
      text and possibly the PDF it wrote; or it ran past its 60-second
      limit; or it could not be started at all. */
  datatype ProcessRun =
    | Exited(returncode: int, stderr: string, produced: Option<Blob>)
    | TimedOut
    | LaunchFailed(reason: string)

  /** One member of a zip archive. */
  datatype ZipEntry = ZipEntry(arcname: string, data: Blob)

  /** How writing a zip archive ends: the archive could not be opened, or
      it was opened (which creates or truncates the file) and closed
      holding `data`, with `error` the message of a member write that
      failed part-way. */
  datatype ZipRun = OpenFailed(msg: string) | Closed(data: Blob, error: Option<string>)

  /** The foreign libraries and the external process. Each reads the bytes
      of the files it is given (`None` for a path with no regular file)
      and either produces a value or fails with a message. */
  datatype Codecs = Codecs(
    open: Option<Blob> -> Result<Image>,
    convert: (Image, string) -> Blob,
    paste: (Image, bool) -> Blob,
    save: (Image, string, SaveOptions) -> Result<Blob>,
    img2pdf: seq<Option<Blob>> -> Result<Blob>,
    pdf2docx: Option<Blob> -> Result<Blob>,
    rasterize: (Option<Blob>, int) -> Result<seq<Image>>,
    soffice: Option<Blob> -> ProcessRun,
    zip: seq<ZipEntry> -> ZipRun)

  /** What a strategy hands back: the produced path (`None` when a PDF had
      no pages), or the message of the `ConversionError` it raised. */
  datatype Converted = Produced(path: Option<string>) | Failed(message: string)

  const IMAGE_FAILED: string := "Image conversion failed: "
  const IMAGES_TO_PDF_FAILED: string := "Images to PDF conversion failed: "
  const PDF_TO_DOCX_FAILED: string := "PDF to DOCX conversion failed: "
  const PDF_TO_IMAGES_FAILED: string := "PDF to images conversion failed: "
  const DOCX_TO_PDF_FAILED: string := "DOCX to PDF conversion failed: "
  const TIMEOUT_MESSAGE: string := "Conversion timed out (file too large or complex)"
  const ZIP_FAILED: string := "ZIP creation failed: "

  const DEFAULT_QUALITY: int := 95
  const DEFAULT_DPI: int := 200

  /** The image formats the dispatcher re-encodes between. */
  const IMAGE_FORMATS: set<string> := {"jpg", "jpeg", "png", "webp"}

  /** The image formats a PDF can be rasterized to. */
  const RASTER_FORMATS: set<string> := {"jpg", "jpeg", "png"}

  /** Format identifiers under which Pillow registers a writer (those of
      them that matter here). Pillow knows JPEG files as `JPEG`, not `JPG`. */
  const PILLOW_SAVE_FORMATS: set<string> := {"BMP", "GIF", "JPEG", "PDF", "PNG", "TIFF", "WEBP"}

  // ---------------------------------------------------------------------
  // Pure decisions

  /** Image modes with transparency or a palette, which JPEG cannot hold. */
  predicate HasAlphaMode(mode: string)
  {
    mode in {"RGBA", "LA", "P"}
  }

  /** A JPEG target needs the image flattened onto white. */
  predicate NeedsFlatten(targetFormat: string, mode: string)
  {
    Lower(targetFormat) in {"jpg", "jpeg"} && HasAlphaMode(mode)
  }

  /** The image pasted onto a white RGB canvas of its size: a palette image
      is first converted to RGBA, and the alpha band serves as the mask
      exactly when the image is RGBA by then. */
  function Flatten(img: Image, codecs: Codecs): (r: Image)
    ensures r.mode == "RGB"
    ensures img.mode == "P" ==>
      r.pixels == codecs.paste(Image("RGBA", codecs.convert(img, "RGBA")), true)
    ensures img.mode != "P" ==> r.pixels == codecs.paste(img, img.mode == "RGBA")
  {
    var src := if img.mode == "P" then Image("RGBA", codecs.convert(img, "RGBA")) else img;
    Image("RGB", codecs.paste(src, src.mode == "RGBA"))
  }

  /** The image `convert_image` saves: flattened for a JPEG target when it
      has alpha or a palette, untouched otherwise. */
  function PrepareForTarget(img: Image, targetFormat: string, codecs: Codecs): (r: Image)
    ensures NeedsFlatten(targetFormat, img.mode) ==> r == Flatten(img, codecs) && r.mode == "RGB"
    ensures !NeedsFlatten(targetFormat, img.mode) ==> r == img
  {
    if NeedsFlatten(targetFormat, img.mode) then Flatten(img, codecs) else img
  }

  /** The save options `convert_image` passes, by lower-cased target. */
  function SaveOptionsFor(targetFormat: string, quality: int): (r: SaveOptions)
    ensures r.quality.Some? <==> Lower(targetFormat) in {"jpg", "jpeg", "webp"}
    ensures r.quality.Some? ==> r.quality.value == quality
    ensures r.optimize <==> Lower(targetFormat) in {"jpg", "jpeg", "png"}
    ensures r.effort.Some? <==> Lower(targetFormat) == "webp"
    ensures r.effort.Some? ==> r.effort.value == 6
  {
    var t := Lower(targetFormat);
    if t in {"jpg", "jpeg"} then SaveOptions(Some(quality), true, None)
    else if t == "webp" then SaveOptions(Some(quality), false, Some(6))
    else if t == "png" then SaveOptions(None, true, None)
    else SaveOptions(None, false, None)
  }

  /** The format name `convert_image` hands to Pillow as written: the
      target in upper case. */
  function PillowFormatAsWritten(targetFormat: string): string
  {
    Upper(targetFormat)
  }

  /** As written, a `jpg` target names no Pillow writer, so every
      re-encode to `jpg` raises `KeyError('JPG')`. */
  lemma JpgTargetHasNoWriterAsWritten()
    ensures PillowFormatAsWritten("jpg") == "JPG"
    ensures PillowFormatAsWritten("jpg") !in PILLOW_SAVE_FORMATS
  {
    assert Upper("jpg") == "JPG";
  }

  /** The Pillow format for a target, with both JPEG spellings mapped to
      Pillow's `JPEG` (as `convert_pdf_to_images` already does). */
  function PillowFormat(targetFormat: string): (r: string)
    ensures Lower(targetFormat) in {"jpg", "jpeg"} ==> r == "JPEG"
    ensures Lower(targetFormat) !in {"jpg", "jpeg"} ==> r == Upper(targetFormat)
  {
    if Lower(targetFormat) in {"jpg", "jpeg"} then "JPEG" else Upper(targetFormat)
  }

  /** Upper-casing a lower-case ASCII string that is one of the image
      format names gives Pillow's identifier for it. */
  lemma UpperOfLower(t: string)
    ensures Lower(t) == "png" ==> Upper(t) == "PNG"
    ensures Lower(t) == "webp" ==> Upper(t) == "WEBP"
  {
    if Lower(t) == "png" {
      assert |t| == 3;
      assert Lower(t)[0] == 'p' && Lower(t)[1] == 'n' && Lower(t)[2] == 'g';
      assert Upper(t) == "PNG";
    }
    if Lower(t) == "webp" {
      assert |t| == 4;
      assert Lower(t)[0] == 'w' && Lower(t)[1] == 'e' && Lower(t)[2] == 'b' && Lower(t)[3] == 'p';
      assert Upper(t) == "WEBP";
    }
  }

  /** With the corrected mapping, every image target in any letter case
      names a Pillow writer. */
  lemma EveryImageTargetHasWriter(targetFormat: string)
    requires Lower(targetFormat) in IMAGE_FORMATS
    ensures PillowFormat(targetFormat) in PILLOW_SAVE_FORMATS
  {
    UpperOfLower(targetFormat);
  }

  /** How `convert_pdf_to_images` saves a page: JPEG at quality 95 for
      either JPEG spelling, otherwise the upper-cased format; always optimized. */
  function PageSaveFormat(outputFormat: string): (r: (string, SaveOptions))
    ensures r.1.optimize
    ensures Lower(outputFormat) in {"jpg", "jpeg"} ==> r == ("JPEG", SaveOptions(Some(95), true, None))
    ensures Lower(outputFormat) !in {"jpg", "jpeg"} ==> r == (Upper(outputFormat), SaveOptions(None, true, None))
  {
    if Lower(outputFormat) in {"jpg", "jpeg"} then ("JPEG", SaveOptions(Some(95), true, None))
    else (Upper(outputFormat), SaveOptions(None, true, None))
  }

  /** The name of page `i` (counted from 1) of a PDF with stem `stem`. */
  function PageName(stem: string, i: nat, outputFormat: string): string
  {
    stem + "_page_" + NatToString(i) + "." + outputFormat
  }

  /** Different page numbers give different digit strings. */
  lemma {:induction false} NatToStringInjective(i: nat, j: nat)
    requires NatToString(i) == NatToString(j)
    ensures i == j
  {
    if i >= 10 && j >= 10 {
      var a := NatToString(i);
      assert a[|a| - 1] == "0123456789"[i % 10];
      assert NatToString(j)[|a| - 1] == "0123456789"[j % 10];
      assert i % 10 == j % 10;
      assert NatToString(i / 10) == a[..|a| - 1] == NatToString(j / 10);
      NatToStringInjective(i / 10, j / 10);
    }
  }

  /** Different pages of one PDF get different file names. */
  lemma PageNamesDistinct(stem: string, i: nat, j: nat, outputFormat: string)
    requires i != j
    ensures PageName(stem, i, outputFormat) != PageName(stem, j, outputFormat)
  {
    var pre := stem + "_page_";
    var a := NatToString(i);
    var b := NatToString(j);
    if PageName(stem, i, outputFormat) == PageName(stem, j, outputFormat) {
      var x := pre + a + "." + outputFormat;
      var y := pre + b + "." + outputFormat;
      assert |a| == |b|;
      assert a == x[|pre|..|pre| + |a|];
      assert b == y[|pre|..|pre| + |b|];
      NatToStringInjective(i, j);
    }
  }

  /** The path of page `i` of `inputPath` in `outputDir`. */
  function PagePath(outputDir: string, inputPath: string, i: nat, outputFormat: string): string
  {
    Join(outputDir, PageName(PathStem(inputPath), i, outputFormat))
  }

  /** The paths of pages 1 to `n`, in page order. */
  function PagePaths(outputDir: string, inputPath: string, n: nat, outputFormat: string): (r: seq<string>)
    ensures |r| == n
  {
    if n == 0 then []
    else PagePaths(outputDir, inputPath, n - 1, outputFormat) + [PagePath(outputDir, inputPath, n, outputFormat)]
  }

  /** Position `k` of the page list holds page `k + 1`. */
  lemma {:induction false} PagePathsAt(outputDir: string, inputPath: string, n: nat, outputFormat: string, k: nat)
    requires k < n
    ensures PagePaths(outputDir, inputPath, n, outputFormat)[k] == PagePath(outputDir, inputPath, k + 1, outputFormat)
  {
    if k < n - 1 {
      PagePathsAt(outputDir, inputPath, n - 1, outputFormat, k);
    }
  }

  /** The temporary RGB copy `convert_images_to_pdf` writes for an image. */
  function TempPath(imgPath: string): (r: string)
    ensures IsTempPath(r)
  {
    assert (imgPath + ".rgb.jpg")[|imgPath|..] == ".rgb.jpg";
    imgPath + ".rgb.jpg"
  }

  /** The paths `convert_images_to_pdf` removes when it is done. */
  predicate IsTempPath(p: string)
  {
    EndsWith(p, ".rgb.jpg")
  }

  /** A file name with at most one dot, joined under any directory, never
      looks like a temporary RGB copy; so the clean-up after an
      images-to-PDF job never removes an uploaded input, whose stored
      name has that shape. */
  lemma OneDotNamesAreNotTemp(dir: string, name: string)
    requires '/' !in name
    requires forall i, j :: 0 <= i < j < |name| && name[i] == '.' ==> name[j] != '.'
    ensures !IsTempPath(Join(dir, name))
  {
    var p := Join(dir, name);
    var pre := if dir == [] || dir[|dir| - 1] == '/' then dir else dir + "/";
    if name != [] {
      assert name[0] != '/';
      assert p == pre + name;
    } else {
      assert p == pre || p == name;
    }
    var n := |p|;
    if n >= 8 {
      var tail := p[n - 8..];
      if |name| >= 8 {
        assert tail == name[|name| - 8..];
        assert name[|name| - 8] != '.' || name[|name| - 4] != '.';
        assert tail[0] != '.' || tail[4] != '.';
      } else {
        assert pre != [] && pre[|pre| - 1] == '/';
        assert tail[|pre| - 1 - (n - 8)] == '/';
      }
      assert tail != ".rgb.jpg";
    }
  }

  /** The dispatch targets of `convert_file`. */
  datatype Strategy = Reencode | ImagesToPdf | PdfToDocx | PdfToImages | DocxToPdf

  /** `convert_file`'s choice for lower-cased formats, `None` for an
      unsupported pair. */
  function Route(source: string, target: string): (r: Option<Strategy>)
    ensures r == Some(Reencode) <==> source in IMAGE_FORMATS && target in IMAGE_FORMATS
    ensures r == Some(ImagesToPdf) <==> source in IMAGE_FORMATS && target == "pdf"
    ensures r == Some(PdfToDocx) <==> source == "pdf" && target == "docx"
    ensures r == Some(PdfToImages) <==> source == "pdf" && target in RASTER_FORMATS
    ensures r == Some(DocxToPdf) <==> source == "docx" && target == "pdf"
  {
    if source in IMAGE_FORMATS then
      if target in IMAGE_FORMATS then Some(Reencode)
      else if target == "pdf" then Some(ImagesToPdf)
      else None
    else if source == "pdf" then
      if target == "docx" then Some(PdfToDocx)
      else if target in RASTER_FORMATS then Some(PdfToImages)
      else None
    else if source == "docx" then
      if target == "pdf" then Some(DocxToPdf) else None
    else None
  }

  /** The rasterization targets are written in lower case already. */
  lemma RasterFormatsAreLower(t: string)
    requires t in RASTER_FORMATS
    ensures Lower(t) == t
  {
    LowerKeepsLowered(t);
  }

  /** Every pair the configuration offers reaches a strategy. */
  lemma SupportedPairsAreRouted(source: string, target: string)
    requires Config.IsSupported(source, target)
    ensures Route(source, target).Some?
  {
  }

  /** The dispatcher lower-cases both formats first, so a request written in
      capitals (`"PDF"`, `"JPG"`) reaches the same strategy as one in lower case. */
  lemma RouteIgnoresCase(source: string, target: string)
    ensures Route(Lower(Upper(source)), Lower(Upper(target))) == Route(Lower(source), Lower(target))
  {
    LowerOfUpper(source);
    LowerOfUpper(target);
  }

  // ---------------------------------------------------------------------
  // Strategies

  /** What a strategy leaves behind: how it ended and the regular files
      afterwards. */
  datatype Effect = Effect(result: Converted, files: map<string, FileEntry>)

  /** `convert_image` on `files`: decode, prepare for the target, save
      with the target's options. */
  function ImageEffect(files: map<string, FileEntry>, codecs: Codecs, inputPath: string, outputPath: string,
                       targetFormat: string, quality: int, now: int): (e: Effect)
    ensures e.result.Failed? ==> StartsWith(e.result.message, IMAGE_FAILED) && e.files == files
    ensures e.result.Produced? ==> e.result.path == Some(outputPath) && outputPath in e.files
    ensures codecs.open(Contents(files, inputPath)).Err? ==> e.result.Failed?
  {
    var decoded := codecs.open(Contents(files, inputPath));
    if decoded.Err? then Effect(Failed(IMAGE_FAILED + decoded.msg), files)
    else
      var img := PrepareForTarget(decoded.value, targetFormat, codecs);
      var format := PillowFormat(targetFormat);
      if format !in PILLOW_SAVE_FORMATS then Effect(Failed(IMAGE_FAILED + "'" + format + "'"), files)
      else
        var saved := codecs.save(img, format, SaveOptionsFor(targetFormat, quality));
        if saved.Err? then Effect(Failed(IMAGE_FAILED + saved.msg), files)
        else Effect(Produced(Some(outputPath)), files[outputPath := FileEntry(saved.value, now)])
  }

  /** `convert_image`: the input is decoded, prepared for the target, and
      saved to `outputPath`; any failure is reported with the
      image-conversion prefix and leaves the files as they were. */
  method ConvertImage(fs: FileSystem, codecs: Codecs, inputPath: string, outputPath: string,
                      targetFormat: string, quality: int, now: int)
    returns (r: Converted)
    modifies fs
    ensures fs.dirs == old(fs.dirs) && fs.locked == old(fs.locked)
    ensures Effect(r, fs.files) == ImageEffect(old(fs.files), codecs, inputPath, outputPath, targetFormat, quality, now)
    ensures r.Failed? ==> StartsWith(r.message, IMAGE_FAILED) && fs.files == old(fs.files)
    ensures r.Produced? ==> r.path == Some(outputPath)
    ensures r.Produced? ==>
      var decoded := codecs.open(old(fs.Read(inputPath)));
      decoded.Ok? &&
      var img := PrepareForTarget(decoded.value, targetFormat, codecs);
      var saved := codecs.save(img, PillowFormat(targetFormat), SaveOptionsFor(targetFormat, quality));
      saved.Ok? && fs.files == old(fs.files)[outputPath := FileEntry(saved.value, now)]
    ensures codecs.open(old(fs.Read(inputPath))).Err? ==> r.Failed?
  {
    var decoded := codecs.open(fs.Read(inputPath));
    if decoded.Err? {
      return Failed(IMAGE_FAILED + decoded.msg);
    }
    var img := PrepareForTarget(decoded.value, targetFormat, codecs);
    var format := PillowFormat(targetFormat);
    if format !in PILLOW_SAVE_FORMATS {
      return Failed(IMAGE_FAILED + "'" + format + "'");
    }
    var saved := codecs.save(img, format, SaveOptionsFor(targetFormat, quality));
    if saved.Err? {
      return Failed(IMAGE_FAILED + saved.msg);
    }
    fs.Write(outputPath, saved.value, now);
    return Produced(Some(outputPath));
  }

  /** The error text of an `os.remove` that raised. */
  function RemoveError(p: string, isFile: bool, isDir: bool): string
  {
    if isFile then "[Errno 13] Permission denied: '" + p + "'"
    else if isDir then "[Errno 21] Is a directory: '" + p + "'"
    else "[Errno 2] No such file or directory: '" + p + "'"
  }

  /** `a` and `b` hold the same entry at `q`, or neither holds one. */
  predicate SameAt(a: map<string, FileEntry>, b: map<string, FileEntry>, q: string)
  {
    (q in a <==> q in b) && (q in a ==> a[q] == b[q])
  }

  /** How far the first loop of `convert_images_to_pdf` got: the list for
      img2pdf so far, the files with the temporary copies written so far,
      and the message of the error that stopped it, if any. */
  datatype Prepared = Prepared(images: seq<string>, files: map<string, FileEntry>, error: Option<string>)

  /** The first loop of `convert_images_to_pdf` from input `i` on, with
      `images` collected so far: an image with alpha or a palette is
      flattened and saved as a JPEG at its temporary path, which joins the
      list; any other image joins the list as it is. */
  function PrepareFrom(files: map<string, FileEntry>, codecs: Codecs, inputPaths: seq<string>, i: nat,
                       images: seq<string>, now: int): (p: Prepared)
    requires i <= |inputPaths| && |images| == i
    decreases |inputPaths| - i
    ensures images <= p.images && |p.images| <= |inputPaths|
    ensures p.error.None? ==> |p.images| == |inputPaths|
    ensures forall k :: i <= k < |p.images| ==> p.images[k] == inputPaths[k] || p.images[k] == TempPath(inputPaths[k])
    ensures files.Keys <= p.files.Keys
    ensures forall q :: !IsTempPath(q) ==> SameAt(p.files, files, q)
  {
    if i == |inputPaths| then Prepared(images, files, None)
    else
      var path := inputPaths[i];
      var decoded := codecs.open(Contents(files, path));
      if decoded.Err? then Prepared(images, files, Some(decoded.msg))
      else if HasAlphaMode(decoded.value.mode) then
        var saved := codecs.save(Flatten(decoded.value, codecs), "JPEG", SaveOptions(None, false, None));
        if saved.Err? then Prepared(images, files, Some(saved.msg))
        else PrepareFrom(files[TempPath(path) := FileEntry(saved.value, now)], codecs, inputPaths, i + 1,
                         images + [TempPath(path)], now)
      else PrepareFrom(files, codecs, inputPaths, i + 1, images + [path], now)
  }

  /** What img2pdf is handed for `images`: their bytes in `files`. */
  function Sources(files: map<string, FileEntry>, images: seq<string>): (r: seq<Option<Blob>>)
    ensures |r| == |images|
    ensures forall k :: 0 <= k < |images| ==> r[k] == Contents(files, images[k])
  {
    seq(|images|, k requires 0 <= k < |images| => Contents(files, images[k]))
  }

  /** How far the clean-up loop of `convert_images_to_pdf` got: the files,
      and the error of the `os.remove` that raised, if any. */
  datatype Removal = Removal(files: map<string, FileEntry>, error: Option<string>)

  /** The clean-up loop from position `j` of `images` on: every entry
      ending in `.rgb.jpg` is removed in turn; one that is missing, a
      directory or locked stops the loop. */
  function RemoveTempsFrom(files: map<string, FileEntry>, dirs: set<string>, locked: set<string>,
                           images: seq<string>, j: nat): (r: Removal)
    requires j <= |images|
    decreases |images| - j
    ensures forall q :: !IsTempPath(q) ==> SameAt(r.files, files, q)
    ensures r.files.Keys <= files.Keys
    ensures r.error.None? ==> forall k :: j <= k < |images| && IsTempPath(images[k]) ==> images[k] !in r.files
  {
    if j == |images| then Removal(files, None)
    else
      var q := images[j];
      if !IsTempPath(q) then RemoveTempsFrom(files, dirs, locked, images, j + 1)
      else if q in files && q !in locked then RemoveTempsFrom(files - {q}, dirs, locked, images, j + 1)
      else Removal(files, Some(RemoveError(q, q in files, q in dirs)))
  }

  /** `convert_images_to_pdf` on `files`: the temporary copies are made,
      the output is emptied (and so emptied), img2pdf gets the bytes of the
      list, the PDF is written, and the temporary copies are removed. */
  function ImagesToPdfEffect(files: map<string, FileEntry>, dirs: set<string>, locked: set<string>, codecs: Codecs,
                             inputPaths: seq<string>, outputPath: string, now: int): (e: Effect)
  {
    var prep := PrepareFrom(files, codecs, inputPaths, 0, [], now);
    if prep.error.Some? then Effect(Failed(IMAGES_TO_PDF_FAILED + prep.error.value), prep.files)
    else
      var emptied := prep.files[outputPath := FileEntry([], now)];
      var pdf := codecs.img2pdf(Sources(emptied, prep.images));
      if pdf.Err? then Effect(Failed(IMAGES_TO_PDF_FAILED + pdf.msg), emptied)
      else
        var removal := RemoveTempsFrom(emptied[outputPath := FileEntry(pdf.value, now)], dirs, locked, prep.images, 0);
        if removal.error.Some? then Effect(Failed(IMAGES_TO_PDF_FAILED + removal.error.value), removal.files)
        else Effect(Produced(Some(outputPath)), removal.files)
  }

  /** The choice the first loop makes for an input, read in `files`: its
      temporary copy exactly when it opens as an image with alpha or a
      palette, and the input itself when it opens as any other image. */
  predicate ModeChoice(files: map<string, FileEntry>, codecs: Codecs, path: string, image: string)
  {
    var decoded := codecs.open(Contents(files, path));
    decoded.Ok? && image == if HasAlphaMode(decoded.value.mode) then TempPath(path) else path
  }

  /** While no input is itself named like a temporary copy, the temporary
      copies never change an input, so every choice the loop makes follows
      the mode of the input as it was before the job. */
  lemma {:induction false} PrepareFollowsModesFrom(orig: map<string, FileEntry>, files: map<string, FileEntry>,
                                                   codecs: Codecs, inputPaths: seq<string>, i: nat,
                                                   images: seq<string>, now: int)
    requires i <= |inputPaths| && |images| == i
    requires forall k :: 0 <= k < |inputPaths| ==> !IsTempPath(inputPaths[k])
    requires forall k :: i <= k < |inputPaths| ==> Contents(files, inputPaths[k]) == Contents(orig, inputPaths[k])
    ensures var p := PrepareFrom(files, codecs, inputPaths, i, images, now);
      forall k :: i <= k < |p.images| ==> ModeChoice(orig, codecs, inputPaths[k], p.images[k])
    decreases |inputPaths| - i
  {
    if i < |inputPaths| {
      var path := inputPaths[i];
      var p := PrepareFrom(files, codecs, inputPaths, i, images, now);
      var decoded := codecs.open(Contents(files, path));
      var saved := if decoded.Ok? then codecs.save(Flatten(decoded.value, codecs), "JPEG", SaveOptions(None, false, None))
                   else Err("");
      if decoded.Err? || (HasAlphaMode(decoded.value.mode) && saved.Err?) {
        assert p.images == images;
      } else {
        var image := if HasAlphaMode(decoded.value.mode) then TempPath(path) else path;
        var next := if HasAlphaMode(decoded.value.mode) then files[TempPath(path) := FileEntry(saved.value, now)]
                    else files;
        var rest := PrepareFrom(next, codecs, inputPaths, i + 1, images + [image], now);
        assert p == rest;
        forall k | i + 1 <= k < |inputPaths|
          ensures Contents(next, inputPaths[k]) == Contents(orig, inputPaths[k])
        {
          assert inputPaths[k] != TempPath(path) by { assert !IsTempPath(inputPaths[k]); }
        }
        PrepareFollowsModesFrom(orig, next, codecs, inputPaths, i + 1, images + [image], now);
        assert ModeChoice(orig, codecs, path, image);
        forall k | i <= k < |p.images|
          ensures ModeChoice(orig, codecs, inputPaths[k], p.images[k])
        {
          if k == i {
            assert images + [image] <= rest.images;
            assert p.images[i] == image;
          }
        }
      }
    }
  }

  /** The list handed to img2pdf: position `k` is the temporary copy of
      input `k` exactly when that input is an image with alpha or a
      palette, and the input itself otherwise. */
  lemma PreparedFollowsModes(files: map<string, FileEntry>, codecs: Codecs, inputPaths: seq<string>, now: int)
    requires forall k :: 0 <= k < |inputPaths| ==> !IsTempPath(inputPaths[k])
    ensures var p := PrepareFrom(files, codecs, inputPaths, 0, [], now);
      forall k :: 0 <= k < |p.images| ==> ModeChoice(files, codecs, inputPaths[k], p.images[k])
  {
    PrepareFollowsModesFrom(files, files, codecs, inputPaths, 0, [], now);
  }

  /** A successful images-to-PDF job leaves the PDF img2pdf made from the
      bytes of the list at the output (unless the output is itself named
      like a temporary copy), no temporary copy of the list, and every
      other file that is not a temporary copy as it was. */
  lemma ImagesToPdfWritesThePdf(files: map<string, FileEntry>, dirs: set<string>, locked: set<string>, codecs: Codecs,
                                inputPaths: seq<string>, outputPath: string, now: int)
    ensures var e := ImagesToPdfEffect(files, dirs, locked, codecs, inputPaths, outputPath, now);
      var prep := PrepareFrom(files, codecs, inputPaths, 0, [], now);
      var pdf := codecs.img2pdf(Sources(prep.files[outputPath := FileEntry([], now)], prep.images));
      e.result.Produced? ==>
        prep.error.None? && pdf.Ok?
        && (!IsTempPath(outputPath) ==> outputPath in e.files && e.files[outputPath] == FileEntry(pdf.value, now))
        && (forall q :: q in prep.images && IsTempPath(q) ==> q !in e.files)
        && (forall q :: q != outputPath && !IsTempPath(q) ==> SameAt(e.files, files, q))
  {
    var e := ImagesToPdfEffect(files, dirs, locked, codecs, inputPaths, outputPath, now);
    var prep := PrepareFrom(files, codecs, inputPaths, 0, [], now);
    if e.result.Produced? {
      var emptied := prep.files[outputPath := FileEntry([], now)];
      var pdf := codecs.img2pdf(Sources(emptied, prep.images));
      assert prep.error.None? && pdf.Ok?;
      var written := emptied[outputPath := FileEntry(pdf.value, now)];
      var removal := RemoveTempsFrom(written, dirs, locked, prep.images, 0);
      assert e.files == removal.files && removal.error.None?;
      if !IsTempPath(outputPath) {
        assert SameAt(removal.files, written, outputPath);
      }
      forall q | q in prep.images && IsTempPath(q)
        ensures q !in e.files
      {
        var k :| 0 <= k < |prep.images| && prep.images[k] == q;
      }
      forall q | q != outputPath && !IsTempPath(q)
        ensures SameAt(e.files, files, q)
      {
        assert SameAt(removal.files, written, q);
        assert SameAt(prep.files, files, q);
      }
    }
  }

  /** The first loop of `convert_images_to_pdf`. */
  method PrepareImages(fs: FileSystem, codecs: Codecs, inputPaths: seq<string>, now: int)
    returns (images: seq<string>, error: Option<string>)
    modifies fs
    ensures Prepared(images, fs.files, error) == PrepareFrom(old(fs.files), codecs, inputPaths, 0, [], now)
    ensures fs.dirs == old(fs.dirs) && fs.locked == old(fs.locked)
  {
    images := [];
    var i := 0;
    while i < |inputPaths|
      invariant 0 <= i <= |inputPaths| && |images| == i
      invariant PrepareFrom(fs.files, codecs, inputPaths, i, images, now)
                == PrepareFrom(old(fs.files), codecs, inputPaths, 0, [], now)
      invariant fs.dirs == old(fs.dirs) && fs.locked == old(fs.locked)
    {
      var p := inputPaths[i];
      var decoded := codecs.open(fs.Read(p));
      if decoded.Err? {
        return images, Some(decoded.msg);
      }
      var img := decoded.value;
      if HasAlphaMode(img.mode) {
        var temp := TempPath(p);
        var saved := codecs.save(Flatten(img, codecs), "JPEG", SaveOptions(None, false, None));
        if saved.Err? {
          return images, Some(saved.msg);
        }
        fs.Write(temp, saved.value, now);
        images := images + [temp];
      } else {
        images := images + [p];
      }
      i := i + 1;
    }
    return images, None;
  }

  /** The clean-up loop of `convert_images_to_pdf`: `os.remove` on every
      entry of the list that ends in `.rgb.jpg`, stopping at the first
      that raises. */
  method RemoveTemps(fs: FileSystem, images: seq<string>) returns (error: Option<string>)
    modifies fs
    ensures Removal(fs.files, error) == RemoveTempsFrom(old(fs.files), old(fs.dirs), old(fs.locked), images, 0)
    ensures fs.dirs == old(fs.dirs) && fs.locked == old(fs.locked)
  {
    var j := 0;
    while j < |images|
      invariant 0 <= j <= |images|
      invariant RemoveTempsFrom(fs.files, fs.dirs, fs.locked, images, j)
                == RemoveTempsFrom(old(fs.files), old(fs.dirs), old(fs.locked), images, 0)
      invariant fs.dirs == old(fs.dirs) && fs.locked == old(fs.locked)
    {
      var q := images[j];
      if IsTempPath(q) {
        var isFile := q in fs.files;
        var isDir := q in fs.dirs;
        var ok := fs.Remove(q);
        if !ok {
          return Some(RemoveError(q, isFile, isDir));
        }
      }
      j := j + 1;
    }
    return None;
  }

  /** `convert_images_to_pdf`: each image with alpha or a palette is
      flattened into a temporary JPEG beside it; the output is emptied (and
      so emptied) before img2pdf runs; then every temporary file is
      removed. `processed` is the list handed to img2pdf, as far as it got.
      A failure leaves the temporary files written so far in place. */
  method ConvertImagesToPdf(fs: FileSystem, codecs: Codecs, inputPaths: seq<string>, outputPath: string, now: int)
    returns (r: Converted, ghost processed: seq<string>)
    modifies fs
    ensures fs.dirs == old(fs.dirs) && fs.locked == old(fs.locked)
    ensures Effect(r, fs.files)
            == ImagesToPdfEffect(old(fs.files), old(fs.dirs), old(fs.locked), codecs, inputPaths, outputPath, now)
    ensures processed == PrepareFrom(old(fs.files), codecs, inputPaths, 0, [], now).images
    ensures r.Failed? ==> StartsWith(r.message, IMAGES_TO_PDF_FAILED)
    ensures r.Produced? ==> r.path == Some(outputPath)
    ensures |processed| <= |inputPaths|
    ensures forall i :: 0 <= i < |processed| ==>
      processed[i] == inputPaths[i] || processed[i] == TempPath(inputPaths[i])
    ensures r.Produced? ==> |processed| == |inputPaths|
    ensures r.Produced? ==> forall q :: q in processed && IsTempPath(q) ==> q !in fs.files
    ensures r.Produced? && !IsTempPath(outputPath) ==> outputPath in fs.files
    ensures r.Produced? ==> forall p :: p in old(fs.files) && !IsTempPath(p) ==> p in fs.files
  {
    var images, error := PrepareImages(fs, codecs, inputPaths, now);
    processed := images;
    if error.Some? {
      return Failed(IMAGES_TO_PDF_FAILED + error.value), images;
    }
    fs.Write(outputPath, [], now);
    var sources := seq(|images|, k requires 0 <= k < |images| reads fs => fs.Read(images[k]));
    assert sources == Sources(fs.files, images);
    var pdf := codecs.img2pdf(sources);
    if pdf.Err? {
      return Failed(IMAGES_TO_PDF_FAILED + pdf.msg), images;
    }
    fs.Write(outputPath, pdf.value, now);
    ghost var written := fs.files;
    var failure := RemoveTemps(fs, images);
    if failure.Some? {
      return Failed(IMAGES_TO_PDF_FAILED + failure.value), images;
    }
    assert forall q :: q in images && IsTempPath(q) ==> q !in fs.files by {
      forall q | q in images && IsTempPath(q)
        ensures q !in fs.files
      {
        var k :| 0 <= k < |images| && images[k] == q;
      }
    }
    assert forall p :: p in old(fs.files) && !IsTempPath(p) ==> p in fs.files by {
      forall p | p in old(fs.files) && !IsTempPath(p)
        ensures p in fs.files
      {
        assert SameAt(written, old(fs.files), p) || p == outputPath;
      }
    }
    if !IsTempPath(outputPath) {
      assert outputPath in written;
    }
    return Produced(Some(outputPath)), images;
  }

  /** `convert_pdf_to_docx` on `files`. */
  function PdfToDocxEffect(files: map<string, FileEntry>, codecs: Codecs, inputPath: string, outputPath: string,
                           now: int): (e: Effect)
    ensures e.result.Failed? ==> StartsWith(e.result.message, PDF_TO_DOCX_FAILED) && e.files == files
    ensures e.result.Produced? ==> e.result.path == Some(outputPath) && outputPath in e.files
    ensures forall q :: q != outputPath ==> SameAt(e.files, files, q)
  {
    var made := codecs.pdf2docx(Contents(files, inputPath));
    if made.Err? then Effect(Failed(PDF_TO_DOCX_FAILED + made.msg), files)
    else Effect(Produced(Some(outputPath)), files[outputPath := FileEntry(made.value, now)])
  }

  /** `convert_pdf_to_docx` */
  method ConvertPdfToDocx(fs: FileSystem, codecs: Codecs, inputPath: string, outputPath: string, now: int)
    returns (r: Converted)
    modifies fs
    ensures fs.dirs == old(fs.dirs) && fs.locked == old(fs.locked)
    ensures Effect(r, fs.files) == PdfToDocxEffect(old(fs.files), codecs, inputPath, outputPath, now)
    ensures var made := codecs.pdf2docx(old(fs.Read(inputPath)));
      (made.Err? ==> r == Failed(PDF_TO_DOCX_FAILED + made.msg) && fs.files == old(fs.files))
      && (made.Ok? ==> r == Produced(Some(outputPath))
                       && fs.files == old(fs.files)[outputPath := FileEntry(made.value, now)])
  {
    var made := codecs.pdf2docx(fs.Read(inputPath));
    if made.Err? {
      return Failed(PDF_TO_DOCX_FAILED + made.msg);
    }
    fs.Write(outputPath, made.value, now);
    return Produced(Some(outputPath));
  }

  /** The saving loop of `convert_pdf_to_images` on `files`, from page
      `i` (counted from 0) on: each page is saved under its own path in
      order, and the first page that cannot be saved stops the loop with
      its message, leaving the pages before it in place. */
  function SavePagesFrom(files: map<string, FileEntry>, codecs: Codecs, pages: seq<Image>, inputPath: string,
                         outputDir: string, outputFormat: string, now: int, i: nat)
    : (r: (Option<string>, map<string, FileEntry>))
    requires i <= |pages|
    ensures files.Keys <= r.1.Keys
    ensures r.0.None? ==>
      forall j :: i < j <= |pages| ==> PagePath(outputDir, inputPath, j, outputFormat) in r.1
    decreases |pages| - i
  {
    if i == |pages| then (None, files)
    else
      var (format, options) := PageSaveFormat(outputFormat);
      if format !in PILLOW_SAVE_FORMATS then (Some("'" + format + "'"), files)
      else
        var saved := codecs.save(pages[i], format, options);
        if saved.Err? then (Some(saved.msg), files)
        else
          var path := PagePath(outputDir, inputPath, i + 1, outputFormat);
          SavePagesFrom(files[path := FileEntry(saved.value, now)], codecs, pages, inputPath, outputDir, outputFormat, now, i + 1)
  }

  /** When the saving loop gets through, every page path holds a file. */
  lemma SavedPagesExist(files: map<string, FileEntry>, codecs: Codecs, pages: seq<Image>, inputPath: string,
                        outputDir: string, outputFormat: string, now: int)
    requires SavePagesFrom(files, codecs, pages, inputPath, outputDir, outputFormat, now, 0).0.None?
    ensures forall p :: p in PagePaths(outputDir, inputPath, |pages|, outputFormat) ==>
      p in SavePagesFrom(files, codecs, pages, inputPath, outputDir, outputFormat, now, 0).1
  {
    var paths := PagePaths(outputDir, inputPath, |pages|, outputFormat);
    forall p | p in paths
      ensures p in SavePagesFrom(files, codecs, pages, inputPath, outputDir, outputFormat, now, 0).1
    {
      var k :| 0 <= k < |paths| && paths[k] == p;
      PagePathsAt(outputDir, inputPath, |pages|, outputFormat, k);
    }
  }

  /** The PDF-to-images route of `convert_file` on `files`: the pages are
      rasterized and saved beside the output; the result is the first
      page's path, or no path when the PDF has no page. */
  function PdfToImagesEffect(files: map<string, FileEntry>, codecs: Codecs, inputPath: string, outputPath: string,
                             target: string, now: int): (e: Effect)
    ensures e.result.Failed? ==> StartsWith(e.result.message, PDF_TO_IMAGES_FAILED)
    ensures e.result.Produced? && e.result.path.Some? ==>
      e.result.path.value == PagePath(Dirname(outputPath), inputPath, 1, target) && e.result.path.value in e.files
    ensures files.Keys <= e.files.Keys
  {
    var pages := codecs.rasterize(Contents(files, inputPath), DEFAULT_DPI);
    if pages.Err? then Effect(Failed(PDF_TO_IMAGES_FAILED + pages.msg), files)
    else
      var run := SavePagesFrom(files, codecs, pages.value, inputPath, Dirname(outputPath), target, now, 0);
      if run.0.Some? then Effect(Failed(PDF_TO_IMAGES_FAILED + run.0.value), run.1)
      else if pages.value == [] then Effect(Produced(None), run.1)
      else Effect(Produced(Some(PagePath(Dirname(outputPath), inputPath, 1, target))), run.1)
  }

  /** `convert_pdf_to_images`: page `i` of `n` is saved as
      `{stem}_page_{i}.{format}` in `outputDir`, in page order, each under
      its own name. A failing page stops the job and leaves the pages
      already saved. */
  method ConvertPdfToImages(fs: FileSystem, codecs: Codecs, inputPath: string, outputDir: string,
                            outputFormat: string, dpi: int, now: int)
    returns (r: Result<seq<string>>)
    modifies fs
    ensures fs.dirs == old(fs.dirs) && fs.locked == old(fs.locked)
    ensures old(fs.files).Keys <= fs.files.Keys
    ensures r.Err? ==> StartsWith(r.msg, PDF_TO_IMAGES_FAILED)
    ensures var pages := codecs.rasterize(old(fs.Read(inputPath)), dpi);
      (pages.Err? ==> r == Err(PDF_TO_IMAGES_FAILED + pages.msg) && fs.files == old(fs.files))
      && (pages.Ok? && pages.value == [] ==> r == Ok([]) && fs.files == old(fs.files))
    ensures r.Ok? ==>
      var pages := codecs.rasterize(old(fs.Read(inputPath)), dpi);
      pages.Ok? && r.value == PagePaths(outputDir, inputPath, |pages.value|, outputFormat)
      && forall p :: p in r.value ==> p in fs.files
    ensures var pages := codecs.rasterize(old(fs.Read(inputPath)), dpi);
      pages.Ok? ==>
        var run := SavePagesFrom(old(fs.files), codecs, pages.value, inputPath, outputDir, outputFormat, now, 0);
        fs.files == run.1 && (run.0.None? <==> r.Ok?) && (run.0.Some? ==> r == Err(PDF_TO_IMAGES_FAILED + run.0.value))
  {
    var rendered := codecs.rasterize(fs.Read(inputPath), dpi);
    if rendered.Err? {
      return Err(PDF_TO_IMAGES_FAILED + rendered.msg);
    }
    var pages := rendered.value;
    ghost var run := SavePagesFrom(fs.files, codecs, pages, inputPath, outputDir, outputFormat, now, 0);
    var (format, options) := PageSaveFormat(outputFormat);
    var paths: seq<string> := [];
    var i := 0;
    while i < |pages|
      invariant 0 <= i <= |pages|
      invariant paths == PagePaths(outputDir, inputPath, i, outputFormat)
      invariant fs.dirs == old(fs.dirs) && fs.locked == old(fs.locked)
      invariant run == SavePagesFrom(fs.files, codecs, pages, inputPath, outputDir, outputFormat, now, i)
    {
      if format !in PILLOW_SAVE_FORMATS {
        assert run == (Some("'" + format + "'"), fs.files);
        return Err(PDF_TO_IMAGES_FAILED + "'" + format + "'");
      }
      var saved := codecs.save(pages[i], format, options);
      if saved.Err? {
        assert run == (Some(saved.msg), fs.files);
        return Err(PDF_TO_IMAGES_FAILED + saved.msg);
      }
      var path := PagePath(outputDir, inputPath, i + 1, outputFormat);
      fs.Write(path, saved.value, now);
      paths := paths + [path];
      i := i + 1;
    }
    SavedPagesExist(old(fs.files), codecs, pages, inputPath, outputDir, outputFormat, now);
    return Ok(paths);
  }

  /** Where LibreOffice puts its PDF: the input's stem with `.pdf`, in the
      output's directory. */
  function LibreOfficeOutput(inputPath: string, outputPath: string): string
  {
    Join(Dirname(outputPath), PathStem(inputPath) + ".pdf")
  }

  /** `convert_docx_to_pdf` on `files` and `dirs`: LibreOffice's run
      decides; its PDF, if any, lands beside the output and is moved onto
      the output path when that is elsewhere. */
  function DocxToPdfEffect(files: map<string, FileEntry>, dirs: set<string>, codecs: Codecs, inputPath: string,
                           outputPath: string, now: int): (e: Effect)
    ensures e.result.Failed? ==> StartsWith(e.result.message, DOCX_TO_PDF_FAILED) || e.result.message == TIMEOUT_MESSAGE
    ensures e.result.Produced? ==> e.result.path == Some(outputPath) && (outputPath in e.files || outputPath in dirs)
  {
    match codecs.soffice(Contents(files, inputPath))
    case TimedOut => Effect(Failed(TIMEOUT_MESSAGE), files)
    case LaunchFailed(reason) => Effect(Failed(DOCX_TO_PDF_FAILED + reason), files)
    case Exited(code, stderr, produced) =>
      var expected := LibreOfficeOutput(inputPath, outputPath);
      var written := if produced.Some? then files[expected := FileEntry(produced.value, now)] else files;
      if code != 0 then Effect(Failed(DOCX_TO_PDF_FAILED + "LibreOffice conversion failed: " + stderr), written)
      else
        var moved := Renamed(written, expected, outputPath);
        if outputPath in moved || outputPath in dirs then Effect(Produced(Some(outputPath)), moved)
        else Effect(Failed(DOCX_TO_PDF_FAILED + "LibreOffice did not create output file"), moved)
  }

  /** A DOCX-to-PDF job touches only two paths: where LibreOffice writes
      and the output. */
  lemma DocxToPdfTouchesTwoPaths(files: map<string, FileEntry>, dirs: set<string>, codecs: Codecs,
                                 inputPath: string, outputPath: string, now: int)
    ensures var e := DocxToPdfEffect(files, dirs, codecs, inputPath, outputPath, now);
      forall q :: q != outputPath && q != LibreOfficeOutput(inputPath, outputPath) ==> SameAt(e.files, files, q)
  {
    var e := DocxToPdfEffect(files, dirs, codecs, inputPath, outputPath, now);
    var expected := LibreOfficeOutput(inputPath, outputPath);
    forall q | q != outputPath && q != expected
      ensures SameAt(e.files, files, q)
    {
      var run := codecs.soffice(Contents(files, inputPath));
      if run.Exited? {
        var written := if run.produced.Some? then files[expected := FileEntry(run.produced.value, now)] else files;
        assert SameAt(written, files, q);
        if run.returncode == 0 {
          assert SameAt(Renamed(written, expected, outputPath), written, q);
        }
      }
    }
  }

  /** `convert_docx_to_pdf`: a timeout, a failed launch, a non-zero exit
      and a missing output file are each a failure with its own message;
      otherwise LibreOffice's file is moved to `outputPath` when it was
      written elsewhere. */
  method ConvertDocxToPdf(fs: FileSystem, codecs: Codecs, inputPath: string, outputPath: string, now: int)
    returns (r: Converted)
    modifies fs
    ensures fs.dirs == old(fs.dirs) && fs.locked == old(fs.locked)
    ensures Effect(r, fs.files) == DocxToPdfEffect(old(fs.files), old(fs.dirs), codecs, inputPath, outputPath, now)
    ensures var run := codecs.soffice(old(fs.Read(inputPath)));
      (run.TimedOut? ==> r == Failed(TIMEOUT_MESSAGE) && fs.files == old(fs.files))
      && (run.LaunchFailed? ==> r == Failed(DOCX_TO_PDF_FAILED + run.reason) && fs.files == old(fs.files))
      && (run.Exited? && run.returncode != 0 ==>
            r == Failed(DOCX_TO_PDF_FAILED + "LibreOffice conversion failed: " + run.stderr))
      && (run.Exited? && run.returncode == 0 ==>
            (r.Produced? <==> fs.Exists(outputPath))
            && (r.Produced? ==> r.path == Some(outputPath))
            && (r.Failed? ==> r.message == DOCX_TO_PDF_FAILED + "LibreOffice did not create output file"))
      && (run.Exited? && run.returncode == 0 && run.produced.Some? ==>
            r == Produced(Some(outputPath)) && outputPath in fs.files
            && fs.files[outputPath].data == run.produced.value)
  {
    var run := codecs.soffice(fs.Read(inputPath));
    match run {
      case TimedOut =>
        return Failed(TIMEOUT_MESSAGE);
      case LaunchFailed(reason) =>
        return Failed(DOCX_TO_PDF_FAILED + reason);
      case Exited(code, stderr, produced) =>
        var expected := LibreOfficeOutput(inputPath, outputPath);
        if produced.Some? {
          fs.Write(expected, produced.value, now);
        }
        if code != 0 {
          return Failed(DOCX_TO_PDF_FAILED + "LibreOffice conversion failed: " + stderr);
        }
        if expected != outputPath && fs.Exists(expected) {
          fs.Rename(expected, outputPath);
        }
        if !fs.Exists(outputPath) {
          return Failed(DOCX_TO_PDF_FAILED + "LibreOffice did not create output file");
        }
        return Produced(Some(outputPath));
    }
  }

  /** The failure prefix of each strategy. */
  function FailurePrefix(s: Strategy): string
  {
    match s
    case Reencode => IMAGE_FAILED
    case ImagesToPdf => IMAGES_TO_PDF_FAILED
    case PdfToDocx => PDF_TO_DOCX_FAILED
    case PdfToImages => PDF_TO_IMAGES_FAILED
    case DocxToPdf => DOCX_TO_PDF_FAILED
  }

  /** The PDF-to-images route of `convert_file`: every page is written
      next to the output, and the first page's path is the result, or no
      path when the PDF has no page. */
  method ConvertPdfToFirstPage(fs: FileSystem, codecs: Codecs, inputPath: string, outputPath: string,
                               target: string, now: int)
    returns (r: Converted)
    modifies fs
    ensures fs.dirs == old(fs.dirs) && fs.locked == old(fs.locked)
    ensures r.Failed? ==> StartsWith(r.message, PDF_TO_IMAGES_FAILED)
    ensures r.Produced? ==> r.path.None? || r.path == Some(PagePath(Dirname(outputPath), inputPath, 1, target))
    ensures r.Produced? && r.path.Some? ==> fs.Exists(r.path.value)
    ensures Effect(r, fs.files) == PdfToImagesEffect(old(fs.files), codecs, inputPath, outputPath, target, now)
    ensures var pages := codecs.rasterize(old(fs.Read(inputPath)), DEFAULT_DPI);
      (pages.Err? ==> r == Failed(PDF_TO_IMAGES_FAILED + pages.msg) && fs.files == old(fs.files))
      && (r == Produced(None) <==> pages.Ok? && pages.value == [])
      && (pages.Ok? && pages.value == [] ==> fs.files == old(fs.files))
      && (r.Produced? && r.path.Some? ==>
            pages.Ok?
            && forall p :: p in PagePaths(Dirname(outputPath), inputPath, |pages.value|, target) ==> p in fs.files)
  {
    var pages := ConvertPdfToImages(fs, codecs, inputPath, Dirname(outputPath), target, DEFAULT_DPI, now);
    if pages.Err? {
      r := Failed(pages.msg);
    } else if pages.value == [] {
      r := Produced(None);
    } else {
      PagePathsAt(Dirname(outputPath), inputPath, |pages.value|, target, 0);
      r := Produced(Some(pages.value[0]));
    }
  }

  /** The message of the error `convert_file` raises for an unsupported pair. */
  function UnsupportedMessage(source: string, target: string): string
  {
    "Unsupported conversion: " + Lower(source) + " -> " + Lower(target)
  }

  /** `convert_file` on `files` and `dirs`: the strategy the pair routes
      to decides the result and the new files; an unsupported pair fails
      and changes nothing. */
  function ConversionEffect(files: map<string, FileEntry>, dirs: set<string>, locked: set<string>, codecs: Codecs,
                            inputPath: string, outputPath: string, sourceFormat: string, targetFormat: string,
                            now: int): (e: Effect)
  {
    var target := Lower(targetFormat);
    match Route(Lower(sourceFormat), target)
    case None => Effect(Failed(UnsupportedMessage(sourceFormat, targetFormat)), files)
    case Some(Reencode) => ImageEffect(files, codecs, inputPath, outputPath, target, DEFAULT_QUALITY, now)
    case Some(ImagesToPdf) => ImagesToPdfEffect(files, dirs, locked, codecs, [inputPath], outputPath, now)
    case Some(PdfToDocx) => PdfToDocxEffect(files, codecs, inputPath, outputPath, now)
    case Some(PdfToImages) => PdfToImagesEffect(files, codecs, inputPath, outputPath, target, now)
    case Some(DocxToPdf) => DocxToPdfEffect(files, dirs, codecs, inputPath, outputPath, now)
  }

  /** Whatever the strategy, a failure carries its strategy's prefix (or
      the timeout message), and only a rasterization produces a path
      other than the output path. */
  lemma ConversionEffectByRoute(files: map<string, FileEntry>, dirs: set<string>, locked: set<string>, codecs: Codecs,
                                inputPath: string, outputPath: string, sourceFormat: string, targetFormat: string,
                                now: int)
    ensures var e := ConversionEffect(files, dirs, locked, codecs, inputPath, outputPath, sourceFormat, targetFormat, now);
      var route := Route(Lower(sourceFormat), Lower(targetFormat));
      (route.None? ==> e == Effect(Failed(UnsupportedMessage(sourceFormat, targetFormat)), files))
      && (route.Some? && e.result.Failed? ==>
            StartsWith(e.result.message, FailurePrefix(route.value))
            || (route.value == DocxToPdf && e.result.message == TIMEOUT_MESSAGE))
      && (route.Some? && route.value != PdfToImages && e.result.Produced? ==> e.result.path == Some(outputPath))
  {
  }

  /** `convert_file`: both formats are lower-cased and the pair routed; an
      unsupported pair fails before any strategy runs; a PDF rasterized to
      an image yields its first page, or nothing when it has no pages. */
  method ConvertFile(fs: FileSystem, codecs: Codecs, inputPath: string, outputPath: string,
                     sourceFormat: string, targetFormat: string, now: int)
    returns (r: Converted)
    modifies fs
    ensures fs.dirs == old(fs.dirs) && fs.locked == old(fs.locked)
    ensures Effect(r, fs.files)
         == ConversionEffect(old(fs.files), old(fs.dirs), old(fs.locked), codecs, inputPath, outputPath,
                             sourceFormat, targetFormat, now)
    ensures var route := Route(Lower(sourceFormat), Lower(targetFormat));
      (route.None? ==> r == Failed(UnsupportedMessage(sourceFormat, targetFormat)) && fs.files == old(fs.files))
      && (route.Some? && r.Failed? ==>
            StartsWith(r.message, FailurePrefix(route.value))
            || (route.value == DocxToPdf && r.message == TIMEOUT_MESSAGE))
      && (route.Some? && route.value != PdfToImages && r.Produced? ==> r.path == Some(outputPath))
      && (route == Some(PdfToImages) && r.Produced? ==>
            r.path.None?
            || r.path == Some(PagePath(Dirname(outputPath), inputPath, 1, Lower(targetFormat))))
      && (route.Some? && route.value in {Reencode, PdfToDocx} && r.Produced? ==> outputPath in fs.files)
      && (route == Some(DocxToPdf) && r.Produced? ==> fs.Exists(outputPath))
      && (r.Produced? && r.path.Some? && route != Some(ImagesToPdf) ==> fs.Exists(r.path.value))
    ensures var route := Route(Lower(sourceFormat), Lower(targetFormat));
      (route == Some(Reencode) ==>
         Effect(r, fs.files)
         == ImageEffect(old(fs.files), codecs, inputPath, outputPath, Lower(targetFormat), DEFAULT_QUALITY, now))
      && (route == Some(ImagesToPdf) ==>
            Effect(r, fs.files)
            == ImagesToPdfEffect(old(fs.files), old(fs.dirs), old(fs.locked), codecs, [inputPath], outputPath, now))
      && (route == Some(PdfToDocx) ==>
            Effect(r, fs.files) == PdfToDocxEffect(old(fs.files), codecs, inputPath, outputPath, now))
      && (route == Some(DocxToPdf) ==>
            Effect(r, fs.files) == DocxToPdfEffect(old(fs.files), old(fs.dirs), codecs, inputPath, outputPath, now))
    ensures Route(Lower(sourceFormat), Lower(targetFormat)) == Some(PdfToImages) ==>
      var pages := codecs.rasterize(old(fs.Read(inputPath)), DEFAULT_DPI);
      (pages.Err? ==> r == Failed(PDF_TO_IMAGES_FAILED + pages.msg) && fs.files == old(fs.files))
      && (r == Produced(None) <==> pages.Ok? && pages.value == [])
      && (pages.Ok? && pages.value == [] ==> fs.files == old(fs.files))
      && (r.Produced? && r.path.Some? ==>
            pages.Ok?
            && forall p :: p in PagePaths(Dirname(outputPath), inputPath, |pages.value|, Lower(targetFormat)) ==>
                 p in fs.files)
  {
    var source := Lower(sourceFormat);
    var target := Lower(targetFormat);
    var route := Route(source, target);
    if route.None? {
      return Failed(UnsupportedMessage(sourceFormat, targetFormat));
    }
    match route.value {
      case Reencode =>
        r := ConvertImage(fs, codecs, inputPath, outputPath, target, DEFAULT_QUALITY, now);
      case ImagesToPdf =>
        ghost var processed;
        r, processed := ConvertImagesToPdf(fs, codecs, [inputPath], outputPath, now);
      case PdfToDocx =>
        r := ConvertPdfToDocx(fs, codecs, inputPath, outputPath, now);
      case PdfToImages =>
        r := ConvertPdfToFirstPage(fs, codecs, inputPath, outputPath, target, now);
      case DocxToPdf =>
        r := ConvertDocxToPdf(fs, codecs, inputPath, outputPath, now);
    }
  }

  // ---------------------------------------------------------------------
  // Zip archives

  /** How many of `paths` `create_zip_archive` gets through: all of them,
      or up to the first missing one (`os.path.exists(None)` raises). */
  function Given(paths: seq<Option<string>>): (n: nat)
    ensures n <= |paths|
    ensures forall i :: 0 <= i < n ==> paths[i].Some?
    ensures n < |paths| ==> paths[n].None?
  {
    if paths == [] || paths[0].None? then 0 else 1 + Given(paths[1..])
  }

  /** The member written for an existing path: a regular file's bytes under
      its base name, or a directory entry for a directory. */
  function EntryFor(files: map<string, FileEntry>, p: string): ZipEntry
  {
    if p in files then ZipEntry(Basename(p), files[p].data) else ZipEntry(Basename(p) + "/", [])
  }

  /** The members `create_zip_archive` writes, in order: one per existing
      path, up to the first missing one. */
  function ZipEntries(files: map<string, FileEntry>, dirs: set<string>, paths: seq<Option<string>>): (r: seq<ZipEntry>)
    ensures |r| <= Given(paths)
  {
    if paths == [] || paths[0].None? then []
    else
      var p := paths[0].value;
      var rest := ZipEntries(files, dirs, paths[1..]);
      if p in files || p in dirs then [EntryFor(files, p)] + rest else rest
  }

  /** One step of the archive loop: an existing path contributes its member,
      and the rest of the list follows. */
  lemma ZipEntriesStep(files: map<string, FileEntry>, dirs: set<string>, paths: seq<Option<string>>, i: nat)
    requires i < |paths| && paths[i].Some?
    ensures ZipEntries(files, dirs, paths[i..])
      == (if paths[i].value in files || paths[i].value in dirs then [EntryFor(files, paths[i].value)] else [])
         + ZipEntries(files, dirs, paths[i + 1..])
  {
    assert paths[i..][1..] == paths[i + 1..];
  }

  /** The archive holds exactly the listed paths that exist (up to the first
      missing one), each under its base name. */
  lemma {:induction false} ZipHoldsExactlyTheExistingFiles(files: map<string, FileEntry>, dirs: set<string>, paths: seq<Option<string>>)
    ensures forall i :: 0 <= i < Given(paths) && (paths[i].value in files || paths[i].value in dirs) ==>
      EntryFor(files, paths[i].value) in ZipEntries(files, dirs, paths)
    ensures forall e :: e in ZipEntries(files, dirs, paths) ==>
      exists i :: 0 <= i < Given(paths) && (paths[i].value in files || paths[i].value in dirs)
                  && e == EntryFor(files, paths[i].value)
  {
    if paths != [] && paths[0].Some? {
      var rest := paths[1..];
      ZipHoldsExactlyTheExistingFiles(files, dirs, rest);
      assert Given(paths) == 1 + Given(rest);
      assert forall i :: 0 < i < Given(paths) ==> paths[i] == rest[i - 1];
      forall e | e in ZipEntries(files, dirs, paths)
        ensures exists i :: 0 <= i < Given(paths) && (paths[i].value in files || paths[i].value in dirs)
                            && e == EntryFor(files, paths[i].value)
      {
        if e !in ZipEntries(files, dirs, rest) {
          assert e == EntryFor(files, paths[0].value);
        } else {
          var k :| 0 <= k < Given(rest) && (rest[k].value in files || rest[k].value in dirs)
                   && e == EntryFor(files, rest[k].value);
          assert paths[k + 1] == rest[k];
        }
      }
    }
  }

  /** The error raised when a listed path is `None`. */
  const NONE_PATH_ERROR: string := "stat: path should be string, bytes, os.PathLike or integer, not NoneType"

  /** The loop of `create_zip_archive`: the listed paths are visited in
      order and each existing one contributes its member, until a missing
      path stops the walk. `given` is how many paths were visited. */
  method CollectEntries(files: map<string, FileEntry>, dirs: set<string>, filePaths: seq<Option<string>>)
    returns (entries: seq<ZipEntry>, given: nat)
    ensures entries == ZipEntries(files, dirs, filePaths)
    ensures given == Given(filePaths)
  {
    entries := [];
    given := 0;
    while given < |filePaths| && filePaths[given].Some?
      invariant given <= Given(filePaths)
      invariant ZipEntries(files, dirs, filePaths) == entries + ZipEntries(files, dirs, filePaths[given..])
    {
      var p := filePaths[given].value;
      var member := if p in files || p in dirs then [EntryFor(files, p)] else [];
      ghost var rest := ZipEntries(files, dirs, filePaths[given + 1..]);
      assert ZipEntries(files, dirs, filePaths[given..]) == member + rest by {
        ZipEntriesStep(files, dirs, filePaths, given);
      }
      AppendAssociates(entries, member, rest);
      entries := entries + member;
      given := given + 1;
    }
    assert given == Given(filePaths) && ZipEntries(files, dirs, filePaths[given..]) == [] by {
      if given < |filePaths| {
        assert filePaths[given..][0].None?;
      }
    }
    assert entries + [] == entries;
  }

  /** `create_zip_archive`: the archive at `zipPath` is opened for writing
      and receives the members `ZipEntries` selects. Once it is open the file
      holds whatever was written, even when a member write or a missing path
      in the list raises afterwards. */
  method CreateZipArchive(fs: FileSystem, codecs: Codecs, filePaths: seq<Option<string>>, zipPath: string, now: int)
    returns (r: Result<string>)
    modifies fs
    ensures fs.dirs == old(fs.dirs) && fs.locked == old(fs.locked)
    ensures var run := codecs.zip(ZipEntries(old(fs.files), old(fs.dirs), filePaths));
      (run.OpenFailed? ==> r == Err(ZIP_FAILED + run.msg) && fs.files == old(fs.files))
      && (run.Closed? ==> fs.files == old(fs.files)[zipPath := FileEntry(run.data, now)])
      && (run.Closed? && run.error.Some? ==> r == Err(ZIP_FAILED + run.error.value))
      && (run.Closed? && run.error.None? && Given(filePaths) < |filePaths| ==> r == Err(ZIP_FAILED + NONE_PATH_ERROR))
      && (run.Closed? && run.error.None? && Given(filePaths) == |filePaths| ==> r == Ok(zipPath))
  {
    var entries, given := CollectEntries(fs.files, fs.dirs, filePaths);
    var run := codecs.zip(entries);
    if run.OpenFailed? {
      return Err(ZIP_FAILED + run.msg);
    }
    fs.Write(zipPath, run.data, now);
    if run.error.Some? {
      return Err(ZIP_FAILED + run.error.value);
    }
    if given < |filePaths| {
      return Err(ZIP_FAILED + NONE_PATH_ERROR);
    }
    return Ok(zipPath);
  }
}
