/** File name functions and the directory sweeps of the converter
    (app/utils/file_utils.py). */
module FileUtils {
  import opened Basics
  import opened PyText
  import opened PyPath
  import opened Fs
  import Config

  /** `\w`: letters, digits and the underscore. */
  predicate IsWordChar(c: char)
  {
    'a' <= c <= 'z' || 'A' <= c <= 'Z' || '0' <= c <= '9' || c == '_'
  }

  /** The class `[\w\s\-\.]` of characters a sanitized file name may keep. */
  predicate KeptInName(c: char)
  {
    IsWordChar(c) || IsSpace(c) || c == '-' || c == '.'
  }

  /** The characters a sanitized stem may hold: the kept ones without the dot. */
  predicate StemChar(c: char)
  {
    IsWordChar(c) || IsSpace(c) || c == '-'
  }

  /** Longest stem a sanitized name keeps. */
  const MAX_STEM_LENGTH: nat := 200

  /** The base name of `filename` with every character outside the kept class removed. */
  function CleanName(filename: string): (r: string)
    ensures '/' !in r
    ensures forall c :: c in r ==> KeptInName(c)
  {
    Filter(Basename(filename), KeptInName)
  }

  /** The stem of the sanitized name: dots of the cleaned stem become
      underscores, it is cut to 200 characters, and `file` stands in for an
      empty one. */
  function SafeStem(filename: string): (stem: string)
    ensures stem != [] && |stem| <= MAX_STEM_LENGTH
    ensures '.' !in stem && '/' !in stem
    ensures forall c :: c in stem ==> StemChar(c)
  {
    var clean := CleanName(filename);
    var parts := SplitExt(clean);
    PrefixKeepsChars(parts.0, parts.1, KeptInName);
    var name := ReplaceChar(parts.0, '.', '_');
    DotsReplacedAreStemChars(parts.0);
    var cut := if |name| > MAX_STEM_LENGTH then name[..MAX_STEM_LENGTH] else name;
    TakeKeepsChars(name, |cut|, StemChar);
    assert !StemChar('.') && !StemChar('/');
    if cut == [] then "file" else cut
  }

  /** Every character of a prefix is a character of the whole. */
  lemma PrefixKeepsChars(a: string, b: string, ok: char -> bool)
    requires forall c :: c in a + b ==> ok(c)
    ensures forall c :: c in a ==> ok(c)
  {
    assert forall i :: 0 <= i < |a| ==> (a + b)[i] == a[i];
  }

  /** A leading slice keeps the character class of the whole. */
  lemma TakeKeepsChars(s: string, n: nat, ok: char -> bool)
    requires n <= |s|
    requires forall c :: c in s ==> ok(c)
    ensures forall c :: c in s[..n] ==> ok(c)
  {
    assert forall i :: 0 <= i < n ==> s[..n][i] == s[i];
  }

  /** Replacing the dots of kept characters by underscores leaves stem characters. */
  lemma DotsReplacedAreStemChars(t: string)
    requires forall c :: c in t ==> KeptInName(c)
    ensures forall c :: c in ReplaceChar(t, '.', '_') ==> StemChar(c)
  {
    var r := ReplaceChar(t, '.', '_');
    forall c | c in r
      ensures StemChar(c)
    {
      var i :| 0 <= i < |r| && r[i] == c;
      assert t[i] in t;
    }
  }

  /** `sanitize_filename`: the result splits into the safe stem and the
      extension of the cleaned base name, and holds no separator. */
  function SanitizeFilename(filename: string): (r: string)
    ensures SplitExt(r) == (SafeStem(filename), SplitExt(CleanName(filename)).1)
    ensures '/' !in r
    ensures forall c :: c in r ==> KeptInName(c)
  {
    var stem := SafeStem(filename);
    var ext := SplitExt(CleanName(filename)).1;
    assert forall c :: c in ext ==> c in CleanName(filename);
    SplitDotFree(stem, ext);
    stem + ext
  }

  /** A non-empty stem without dots or separators, followed by an
      extension, splits exactly between the two. */
  lemma SplitDotFree(stem: string, ext: string)
    requires stem != [] && '.' !in stem && '/' !in stem && IsExtension(ext)
    ensures SplitExt(stem + ext) == (stem, ext)
  {
    if ext == [] {
      assert stem + ext == stem;
      SplitExtNoDot(stem);
    } else {
      var t := ext[1..];
      assert ext == "." + t;
      assert Basename(stem) == stem by {
        assert RFind(stem, '/') == -1;
      }
      assert stem[0] != '.';
      SplitExtAt(stem, t);
      assert stem + ext == stem + "." + t;
    }
  }

  /** Keeping every character of a string keeps the string. */
  lemma {:induction false} FilterKeepsAll(s: string, keep: char -> bool)
    requires forall c :: c in s ==> keep(c)
    ensures Filter(s, keep) == s
  {
    if s != [] {
      assert s == [s[0]] + s[1..];
      FilterKeepsAll(s[1..], keep);
    }
  }

  /** Cleaning `@@.jpg` drops both `@` and leaves `.jpg`. */
  lemma CleanDropsAts()
    ensures CleanName("@@.jpg") == ".jpg"
  {
    var s := "@@.jpg";
    forall k | 0 <= k < |s|
      ensures s[k] != '/'
    {
      assert k == 0 || k == 1 || k == 2 || k == 3 || k == 4 || k == 5;
    }
    RFindAt(s, '/', -1);
    assert s[0..] == s;
    FilterDropsAts();
  }

  /** Filtering `@@.jpg` through the kept class leaves `.jpg`. */
  lemma FilterDropsAts()
    ensures Filter("@@.jpg", KeptInName) == ".jpg"
  {
    assert !KeptInName('@');
    assert "@@.jpg"[1..] == "@.jpg";
    assert Filter("@@.jpg", KeptInName) == Filter("@.jpg", KeptInName);
    assert "@.jpg"[1..] == ".jpg";
    assert Filter("@.jpg", KeptInName) == Filter(".jpg", KeptInName);
    FilterKeepsDotJpg();
  }

  /** Every character of `.jpg` is kept. */
  lemma FilterKeepsDotJpg()
    ensures Filter(".jpg", KeptInName) == ".jpg"
  {
    forall c | c in ".jpg"
      ensures KeptInName(c)
    {
      assert c == '.' || c == 'j' || c == 'p' || c == 'g';
    }
    FilterKeepsAll(".jpg", KeptInName);
  }

  /** The dot of `.jpg` becomes an underscore. */
  lemma ReplaceLeadingDot()
    ensures ReplaceChar(".jpg", '.', '_') == "_jpg"
  {
    var r := ReplaceChar(".jpg", '.', '_');
    assert r[0] == '_' && r[1] == 'j' && r[2] == 'p' && r[3] == 'g';
  }

  /** A name whose stem is all dropped characters loses its extension:
      `@@.jpg` cleans to `.jpg`, which `splitext` reads as a stem, so the
      sanitized name is `_jpg`. */
  lemma SanitizeDroppedStem()
    ensures SanitizeFilename("@@.jpg") == "_jpg"
  {
    CleanDropsAts();
    SplitExtLeadingDot();
    ReplaceLeadingDot();
    assert SafeStem("@@.jpg") == "_jpg";
  }

  /** Sanitizing a sanitized name changes nothing. */
  lemma SanitizeIdempotent(filename: string)
    ensures SanitizeFilename(SanitizeFilename(filename)) == SanitizeFilename(filename)
  {
    var r := SanitizeFilename(filename);
    assert Basename(r) == r by {
      assert RFind(r, '/') == -1;
    }
    FilterKeepsAll(r, KeptInName);
    assert CleanName(r) == r;
    var stem := SafeStem(filename);
    assert SplitExt(r).0 == stem;
    assert ReplaceChar(stem, '.', '_') == stem;
    assert SafeStem(r) == stem;
    assert r == stem + SplitExt(r).1;
  }

  /** The shape of `uuid4().hex`: 32 lower-case hexadecimal digits. */
  predicate IsUuidHex(hex: string)
  {
    |hex| == 32 && forall i :: 0 <= i < |hex| ==> '0' <= hex[i] <= '9' || 'a' <= hex[i] <= 'f'
  }

  /** `generate_unique_filename`, with the random UUID as the parameter
      `hex`: its first 12 digits, an underscore, and the sanitized name,
      which keeps its extension. */
  function GenerateUniqueFilename(filename: string, hex: string): (r: string)
    requires IsUuidHex(hex)
    ensures r == hex[..12] + "_" + SanitizeFilename(filename)
    ensures SplitExt(r).1 == SplitExt(SanitizeFilename(filename)).1
    ensures '/' !in r
  {
    var sanitized := SanitizeFilename(filename);
    var stem := SafeStem(filename);
    var ext := SplitExt(CleanName(filename)).1;
    assert sanitized == stem + ext by {
      assert SplitExt(sanitized) == (stem, ext);
    }
    var id := hex[..12];
    assert '.' !in id && '/' !in id by {
      assert forall i :: 0 <= i < |id| ==> id[i] == hex[i];
    }
    PrefixedSplit(id, stem, ext);
    id + "_" + sanitized
  }

  /** Putting a dot-free, separator-free prefix and an underscore before a
      sanitized name keeps its extension. */
  lemma PrefixedSplit(id: string, stem: string, ext: string)
    requires '.' !in id && '/' !in id
    requires stem != [] && '.' !in stem && '/' !in stem && IsExtension(ext)
    ensures SplitExt(id + "_" + (stem + ext)).1 == ext
    ensures '/' !in id + "_" + (stem + ext)
  {
    var prefix := id + "_" + stem;
    assert '.' !in prefix && '/' !in prefix by {
      assert forall c :: c in prefix ==> c in id || c == '_' || c in stem;
    }
    AppendAssociates(id + "_", stem, ext);
    SplitDotFree(prefix, ext);
    assert '/' !in prefix + ext by {
      assert forall c :: c in prefix + ext ==> c in prefix || c in ext;
    }
  }

  /** A name that is already clean (no separator, only kept characters)
      keeps its extension under the unique prefix. */
  lemma UniqueNameKeepsExtension(filename: string, hex: string)
    requires IsUuidHex(hex)
    requires '/' !in filename && forall c :: c in filename ==> KeptInName(c)
    ensures SplitExt(GenerateUniqueFilename(filename, hex)).1 == SplitExt(filename).1
  {
    assert Basename(filename) == filename by {
      assert RFind(filename, '/') == -1;
    }
    FilterKeepsAll(filename, KeptInName);
    assert CleanName(filename) == filename;
  }

  /** `get_file_extension`: the `splitext` extension, lower-cased, with its dot removed. */
  function GetFileExtension(filename: string): (r: string)
    ensures '.' !in r && '/' !in r
    ensures forall i :: 0 <= i < |r| ==> !('A' <= r[i] <= 'Z')
    ensures SplitExt(filename).1 == [] ==> r == []
    ensures SplitExt(filename).1 != [] ==> r == Lower(SplitExt(filename).1[1..])
  {
    var e := SplitExt(filename).1;
    if e == [] then LowerWithoutDot(e)
    else
      LowerHasNoCapitals(e[1..]);
      LowerKeepsNonLetters(e[1..], '/');
      LowerWithoutDot(e)
  }

  /** `get_conversion_output_filename`: the `splitext` stem, a dot, and the target. */
  function GetConversionOutputFilename(inputFilename: string, targetFormat: string): (r: string)
    ensures StartsWith(r, SplitExt(inputFilename).0) && EndsWith(r, "." + targetFormat)
    ensures |r| == |SplitExt(inputFilename).0| + 1 + |targetFormat|
  {
    var stem := SplitExt(inputFilename).0;
    var tail := "." + targetFormat;
    var r := stem + tail;
    assert r[..|stem|] == stem && r[|r| - |tail|..] == tail;
    r
  }

  /** For a plain file name (non-empty, no separator, no leading dot) and a
      format without dots or separators, the output name's extension is the
      target format and its stem is the input's stem. */
  lemma OutputFilenameHasTarget(inputFilename: string, targetFormat: string)
    requires inputFilename != [] && '/' !in inputFilename && inputFilename[0] != '.'
    requires '.' !in targetFormat && '/' !in targetFormat
    ensures SplitExt(GetConversionOutputFilename(inputFilename, targetFormat))
         == (SplitExt(inputFilename).0, "." + targetFormat)
    ensures GetFileExtension(GetConversionOutputFilename(inputFilename, targetFormat))
         == Lower(targetFormat)
  {
    var stem := SplitExt(inputFilename).0;
    assert RFind(inputFilename, '/') == -1;
    assert stem != [] && stem[0] == inputFilename[0] by {
      assert stem + SplitExt(inputFilename).1 == inputFilename;
    }
    assert Basename(stem) == stem by {
      assert RFind(stem, '/') == -1;
    }
    SplitExtAt(stem, targetFormat);
    assert ("." + targetFormat)[1..] == targetFormat;
  }

  /** The age limit of a sweep: the given number of minutes, or the
      configured retention when none is given, counted back from `now`. */
  function RetentionCutoff(maxAgeMinutes: Option<int>, now: int): (cutoff: int)
    ensures maxAgeMinutes.None? ==> now - cutoff == 60 * Config.FILE_RETENTION_MINUTES
    ensures maxAgeMinutes.Some? ==> now - cutoff == 60 * maxAgeMinutes.value
    ensures maxAgeMinutes.None? || maxAgeMinutes.value >= 0 ==> cutoff <= now
  {
    var minutes := if maxAgeMinutes.None? then Config.FILE_RETENTION_MINUTES else maxAgeMinutes.value;
    now - minutes * 60
  }

  /** The files below `directory` modified strictly before `cutoff` whose
      removal the system allows: exactly what one sweep removes. */
  function Expired(files: map<string, FileEntry>, locked: set<string>, directory: string, cutoff: int): (r: set<string>)
    ensures forall p :: p in r <==>
      p in files && Below(p, directory) && files[p].mtime < cutoff && p !in locked
  {
    set p | p in files && Below(p, directory) && files[p].mtime < cutoff && p !in locked
  }

  /** A second sweep with the same cutoff finds nothing more to remove. */
  lemma SweepIsIdempotent(files: map<string, FileEntry>, locked: set<string>, directory: string, cutoff: int)
    ensures Expired(files - Expired(files, locked, directory, cutoff), locked, directory, cutoff) == {}
  {
  }

  /** Visiting `p` during a sweep moves it from the files still to visit
      to the files already handled. */
  lemma SweepStep(files0: map<string, FileEntry>, gone: set<string>, todo: set<string>, p: string)
    requires p in todo
    ensures p in gone ==> gone - (todo - {p}) == (gone - todo) + {p}
    ensures p in gone ==> |gone - (todo - {p})| == |gone - todo| + 1
    ensures p in gone ==> files0 - (gone - (todo - {p})) == (files0 - (gone - todo)) - {p}
    ensures p !in gone ==> gone - (todo - {p}) == gone - todo
  {
    if p in gone {
      assert gone - (todo - {p}) == (gone - todo) + {p};
    }
  }

  /** `cleanup_old_files`: walks `directory` and removes every expired
      file; a file whose removal fails is skipped and the walk goes on. A
      path that is not a directory is left alone and counts zero. */
  method CleanupOldFiles(fs: FileSystem, directory: string, maxAgeMinutes: Option<int>, now: int)
    returns (deleted: nat)
    modifies fs
    ensures directory !in old(fs.dirs) ==> deleted == 0 && fs.files == old(fs.files)
    ensures directory in old(fs.dirs) ==>
      var gone := Expired(old(fs.files), old(fs.locked), directory, RetentionCutoff(maxAgeMinutes, now));
      fs.files == old(fs.files) - gone && deleted == |gone|
    ensures fs.dirs == old(fs.dirs) && fs.locked == old(fs.locked)
  {
    deleted := 0;
    if directory !in fs.dirs {
      return;
    }
    var cutoff := RetentionCutoff(maxAgeMinutes, now);
    ghost var files0 := fs.files;
    ghost var gone := Expired(files0, fs.locked, directory, cutoff);
    var todo := FilesBelow(fs.files, directory);
    while todo != {}
      invariant todo <= FilesBelow(files0, directory)
      invariant forall p :: p in gone ==> p in todo || p !in fs.files
      invariant fs.files == files0 - (gone - todo)
      invariant deleted == |gone - todo|
      invariant fs.dirs == old(fs.dirs) && fs.locked == old(fs.locked)
      decreases |todo|
    {
      var p :| p in todo;
      SweepStep(files0, gone, todo, p);
      if p in fs.files && fs.files[p].mtime < cutoff {
        var ok := fs.Remove(p);
        if ok {
          deleted := deleted + 1;
        }
      }
      todo := todo - {p};
    }
  }

  /** `secure_delete_file`: true exactly when a regular file was there and
      the system let it be removed; only that file goes. */
  method SecureDeleteFile(fs: FileSystem, path: string) returns (ok: bool)
    modifies fs
    ensures ok <==> old(path in fs.files) && path !in fs.locked
    ensures fs.files == old(fs.files) - (if ok then {path} else {})
    ensures fs.dirs == old(fs.dirs) && fs.locked == old(fs.locked)
  {
    if fs.Exists(path) {
      ok := fs.Remove(path);
    } else {
      ok := false;
    }
  }

  /** No path is listed twice. */
  predicate Distinct(s: seq<string>)
  {
    forall i, j :: 0 <= i < j < |s| ==> s[i] != s[j]
  }

  /** The regular files directly inside `directory` whose extension matches
      the optional filter, compared in lower case. */
  function Listed(files: map<string, FileEntry>, directory: string, extension: Option<string>): set<string>
  {
    set p | p in files && ChildOf(p, directory)
              && (extension.None? || GetFileExtension(ChildName(p, directory)) == Lower(extension.value))
  }

  /** `list_files_in_directory`: the matching regular files of a directory,
      each once, in listing order. A missing directory lists nothing; a
      path naming a regular file makes `os.listdir` raise. */
  method ListFilesInDirectory(fs: FileSystem, directory: string, extension: Option<string>)
    returns (r: Result<seq<string>>)
    ensures !fs.Exists(directory) ==> r == Ok([])
    ensures directory in fs.files && directory !in fs.dirs ==> r.Err?
    ensures directory in fs.dirs ==>
      r.Ok? && Distinct(r.value) && forall p :: p in r.value <==> p in Listed(fs.files, directory, extension)
  {
    if !fs.Exists(directory) {
      return Ok([]);
    }
    if directory !in fs.dirs {
      return Err("[Errno 20] Not a directory: '" + directory + "'");
    }
    var found: seq<string> := [];
    var todo := set p | p in fs.files && ChildOf(p, directory);
    ghost var listed := Listed(fs.files, directory, extension);
    while todo != {}
      invariant todo <= set p | p in fs.files && ChildOf(p, directory)
      invariant Distinct(found)
      invariant forall p :: p in found <==> p in listed && p !in todo
      decreases |todo|
    {
      var p :| p in todo;
      var name := ChildName(p, directory);
      if extension.None? || GetFileExtension(name) == Lower(extension.value) {
        found := found + [p];
      }
      todo := todo - {p};
    }
    return Ok(found);
  }

  /** The combined size in bytes of the files `ps`. */
  ghost function TotalSize(files: map<string, FileEntry>, ps: set<string>): nat
    requires ps <= files.Keys
    decreases ps
  {
    if ps == {} then 0
    else
      var p :| p in ps;
      |files[p].data| + TotalSize(files, ps - {p})
  }

  /** The total can be taken apart at any file of the set, not only at the
      one its definition picks. */
  lemma {:induction false} TotalSizeRemove(files: map<string, FileEntry>, ps: set<string>, p: string)
    requires p in ps && ps <= files.Keys
    ensures TotalSize(files, ps) == |files[p].data| + TotalSize(files, ps - {p})
    decreases ps
  {
    var q :| q in ps && TotalSize(files, ps) == |files[q].data| + TotalSize(files, ps - {q});
    if q != p {
      TotalSizeRemove(files, ps - {q}, p);
      TotalSizeRemove(files, ps - {p}, q);
      assert ps - {q} - {p} == ps - {p} - {q};
    }
  }

  /** The files `os.walk(directory)` reaches. */
  function FilesBelow(files: map<string, FileEntry>, directory: string): (r: set<string>)
    ensures r <= files.Keys
  {
    set p | p in files && Below(p, directory)
  }

  /** `get_directory_size`: the sizes of all files below the directory,
      summed; zero when the path is not a directory. */
  method GetDirectorySize(fs: FileSystem, directory: string) returns (total: nat)
    ensures directory !in fs.dirs ==> total == 0
    ensures directory in fs.dirs ==> total == TotalSize(fs.files, FilesBelow(fs.files, directory))
  {
    total := 0;
    if directory !in fs.dirs {
      return;
    }
    var todo := FilesBelow(fs.files, directory);
    while todo != {}
      invariant todo <= FilesBelow(fs.files, directory)
      invariant total + TotalSize(fs.files, todo) == TotalSize(fs.files, FilesBelow(fs.files, directory))
      decreases |todo|
    {
      var p :| p in todo;
      TotalSizeRemove(fs.files, todo, p);
      total := total + |fs.files[p].data|;
      todo := todo - {p};
    }
  }
}
