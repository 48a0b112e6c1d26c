/** The local storage provider (app/services/storage.py): two directories
    on the file system, looked up output first. */
module Storage {
  import opened Basics
  import opened PyText
  import opened PyPath
  import opened Fs
  import Config
  import FileUtils

  /** Which provider the configuration selects. */
  datatype ProviderKind = S3 | Local

  /** `get_storage_provider`: S3 for the storage type `s3` exactly, local
      storage for anything else. */
  function SelectProvider(storageType: string): (r: ProviderKind)
    ensures r == S3 <==> storageType == "s3"
    ensures r == Local <==> storageType != "s3"
  {
    if storageType == "s3" then S3 else Local
  }

  /** The figures `get_storage_usage` reports (the human-readable size
      strings aside). */
  datatype Usage = Usage(
    inputSizeBytes: nat,
    outputSizeBytes: nat,
    totalSizeBytes: nat,
    inputFiles: nat,
    outputFiles: nat,
    totalFiles: nat)

  /** The regular files directly inside `dir`. */
  function Children(files: map<string, FileEntry>, dir: string): set<string>
  {
    set p | p in files && ChildOf(p, dir)
  }

  const DOWNLOAD_PREFIX: string := "/download/"

  class LocalTempStorage {
    const fs: FileSystem
    const inputDir: string
    const outputDir: string

    /** Both directories are created when the provider is made. */
    constructor (fs: FileSystem)
      modifies fs
      ensures this.fs == fs
      ensures inputDir == Config.INPUT_DIR && outputDir == Config.OUTPUT_DIR
      ensures fs.dirs == old(fs.dirs) + {Config.INPUT_DIR, Config.OUTPUT_DIR}
      ensures fs.files == old(fs.files) && fs.locked == old(fs.locked)
    {
      this.fs := fs;
      inputDir := Config.INPUT_DIR;
      outputDir := Config.OUTPUT_DIR;
      new;
      fs.MakeDir(inputDir);
      fs.MakeDir(outputDir);
    }

    /** Where `key` lives in the output directory. */
    function OutputPath(key: string): string
    {
      Join(outputDir, key)
    }

    /** Where `key` lives in the input directory. */
    function InputPath(key: string): string
    {
      Join(inputDir, key)
    }

    /** `get_file_path`: the output copy when there is one, else the input
        copy when there is one, else the output path anyway. */
    function GetFilePath(key: string): (r: string)
      reads fs
      ensures r == OutputPath(key) || r == InputPath(key)
      ensures fs.Exists(OutputPath(key)) ==> r == OutputPath(key)
      ensures r == InputPath(key) && r != OutputPath(key) ==>
        !fs.Exists(OutputPath(key)) && fs.Exists(InputPath(key))
      ensures fs.Exists(r) <==> fs.Exists(OutputPath(key)) || fs.Exists(InputPath(key))
    {
      if fs.Exists(OutputPath(key)) then OutputPath(key)
      else if fs.Exists(InputPath(key)) then InputPath(key)
      else OutputPath(key)
    }

    /** `get_download_url`: the key under the download route; removing the
        route prefix gives the key back. */
    function GetDownloadUrl(key: string): (r: string)
      ensures StartsWith(r, DOWNLOAD_PREFIX)
      ensures r[|DOWNLOAD_PREFIX|..] == key
    {
      var r := DOWNLOAD_PREFIX + key;
      assert r[..|DOWNLOAD_PREFIX|] == DOWNLOAD_PREFIX;
      r
    }

    /** `upload_file`: the destination is `key` in the output directory.
        Nothing is copied when the source is that very path; otherwise
        `shutil.copy2` copies the bytes and the modification time, into the
        destination or, when that is a directory, to the source's base name
        inside it. A source that is not a regular file makes the copy raise. */
    method UploadFile(localPath: string, key: string) returns (r: Result<string>)
      modifies fs
      ensures fs.dirs == old(fs.dirs) && fs.locked == old(fs.locked)
      ensures localPath == OutputPath(key) ==> r == Ok(OutputPath(key)) && fs.files == old(fs.files)
      ensures localPath != OutputPath(key) && localPath !in old(fs.files) ==>
        r.Err? && fs.files == old(fs.files)
      ensures r.Ok? ==> r.value == OutputPath(key)
      ensures r.Err? ==> fs.files == old(fs.files)
      ensures localPath != OutputPath(key) && localPath in old(fs.files) && OutputPath(key) in old(fs.dirs)
              && Join(OutputPath(key), Basename(localPath)) == localPath ==>
        r == Err("'" + localPath + "' and '" + localPath + "' are the same file")
      ensures r.Ok? <==>
        (localPath == OutputPath(key)
         || (localPath in old(fs.files)
             && (if OutputPath(key) in old(fs.dirs) then Join(OutputPath(key), Basename(localPath)) else OutputPath(key))
                != localPath))
      ensures r.Ok? && localPath != OutputPath(key) ==>
        var target := if OutputPath(key) in fs.dirs then Join(OutputPath(key), Basename(localPath)) else OutputPath(key);
        localPath in old(fs.files) && fs.files == old(fs.files)[target := old(fs.files)[localPath]]
    {
      var dest := OutputPath(key);
      if localPath == dest {
        return Ok(dest);
      }
      if localPath !in fs.files {
        return Err("[Errno 2] No such file or directory: '" + localPath + "'");
      }
      var target := if dest in fs.dirs then Join(dest, Basename(localPath)) else dest;
      if target == localPath {
        return Err("'" + localPath + "' and '" + target + "' are the same file");
      }
      var entry := fs.files[localPath];
      fs.Write(target, entry.data, entry.mtime);
      return Ok(dest);
    }

    /** `delete_file`: the path `get_file_path` resolves is removed when it
        is a regular file the system lets go; true exactly then. Nothing
        else changes, so a key held in both directories loses only its
        output copy. */
    method DeleteFile(key: string) returns (ok: bool)
      modifies fs
      ensures var p := old(GetFilePath(key));
        (ok <==> p in old(fs.files) && p !in fs.locked)
        && fs.files == old(fs.files) - (if ok then {p} else {})
      ensures fs.dirs == old(fs.dirs) && fs.locked == old(fs.locked)
    {
      var p := GetFilePath(key);
      if fs.Exists(p) {
        ok := fs.Remove(p);
      } else {
        ok := false;
      }
    }

    /** `get_storage_usage`: byte totals of both directory trees and counts
        of the regular files directly in each; the totals are the sums.
        Listing a path that is a regular file raises. */
    method GetStorageUsage() returns (r: Result<Usage>)
      ensures ((inputDir in fs.dirs || !fs.Exists(inputDir))
               && (outputDir in fs.dirs || !fs.Exists(outputDir))) ==> r.Ok?
      ensures r.Ok? ==>
        r.value.totalSizeBytes == r.value.inputSizeBytes + r.value.outputSizeBytes
        && r.value.totalFiles == r.value.inputFiles + r.value.outputFiles
      ensures r.Ok? ==>
        r.value.inputSizeBytes == (if inputDir in fs.dirs then
            FileUtils.TotalSize(fs.files, FileUtils.FilesBelow(fs.files, inputDir)) else 0)
        && r.value.outputSizeBytes == (if outputDir in fs.dirs then
            FileUtils.TotalSize(fs.files, FileUtils.FilesBelow(fs.files, outputDir)) else 0)
      ensures r.Ok? ==>
        r.value.inputFiles == (if inputDir in fs.dirs then |Children(fs.files, inputDir)| else 0)
        && r.value.outputFiles == (if outputDir in fs.dirs then |Children(fs.files, outputDir)| else 0)
    {
      var inputSize := FileUtils.GetDirectorySize(fs, inputDir);
      var outputSize := FileUtils.GetDirectorySize(fs, outputDir);
      var inputFiles := 0;
      if fs.Exists(inputDir) {
        if inputDir !in fs.dirs {
          return Err("[Errno 20] Not a directory: '" + inputDir + "'");
        }
        inputFiles := |Children(fs.files, inputDir)|;
      }
      var outputFiles := 0;
      if fs.Exists(outputDir) {
        if outputDir !in fs.dirs {
          return Err("[Errno 20] Not a directory: '" + outputDir + "'");
        }
        outputFiles := |Children(fs.files, outputDir)|;
      }
      return Ok(Usage(inputSize, outputSize, inputSize + outputSize,
                      inputFiles, outputFiles, inputFiles + outputFiles));
    }
  }
}
