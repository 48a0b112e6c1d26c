/** The part of the operating system's file system the converter touches:
    regular files with their contents and modification times, and
    directories, named by path strings. */
module Fs {
  import opened Basics
  import opened PyText
  import opened PyPath

  newtype byte = x: int | 0 <= x < 256

  type Blob = seq<byte>

  /** A regular file: its bytes and its modification time in whole seconds. */
  datatype FileEntry = FileEntry(data: Blob, mtime: int)

  /** The directory path as `os.path.join` extends it: with one trailing separator. */
  function DirPrefix(dir: string): (r: string)
    ensures EndsWith(r, "/") || r == []
  {
    if dir == [] || dir[|dir| - 1] == '/' then dir else dir + "/"
  }

  /** `p` lies somewhere below `dir`: what `os.walk(dir)` reaches. */
  predicate Below(p: string, dir: string)
  {
    var pre := DirPrefix(dir);
    |pre| < |p| && p[..|pre|] == pre
  }

  /** `p` is an entry directly inside `dir`: what `os.listdir(dir)` names. */
  predicate ChildOf(p: string, dir: string)
  {
    Below(p, dir) && '/' !in p[|DirPrefix(dir)|..]
  }

  /** The name `os.listdir(dir)` reports for the child `p`. */
  function ChildName(p: string, dir: string): (r: string)
    requires ChildOf(p, dir)
    ensures Join(dir, r) == p && r != [] && '/' !in r
  {
    var pre := DirPrefix(dir);
    var r := p[|pre|..];
    assert p == pre + r;
    assert r[0] != '/';
    r
  }

  /** Joining a directory and a non-empty, separator-free name yields a
      direct child of that directory. */
  lemma JoinIsChild(dir: string, name: string)
    requires name != [] && '/' !in name && dir != []
    ensures ChildOf(Join(dir, name), dir)
    ensures ChildName(Join(dir, name), dir) == name
  {
    var pre := DirPrefix(dir);
    assert name[0] != '/';
    assert Join(dir, name) == pre + name;
    assert (pre + name)[|pre|..] == name;
  }

  /** The bytes at `p` in `files`, or `None` when no regular file is
      there (so any library that opens it fails). */
  function Contents(files: map<string, FileEntry>, p: string): (r: Option<Blob>)
    ensures r.Some? <==> p in files
  {
    if p in files then Some(files[p].data) else None
  }

  /** The files after `os.rename(src, dst)` of a regular file `src`: the
      entry moves with its modification time; a missing `src`, or a
      rename onto itself, changes nothing. */
  function Renamed(files: map<string, FileEntry>, src: string, dst: string): (r: map<string, FileEntry>)
    ensures src in files && src != dst ==> dst in r && r[dst] == files[src] && src !in r
    ensures forall p :: p != src && p != dst ==> (p in r <==> p in files) && (p in r ==> r[p] == files[p])
  {
    if src in files && src != dst then (files - {src})[dst := files[src]] else files
  }

  class FileSystem {
    /** Regular files by path. */
    var files: map<string, FileEntry>
    /** Directories by path. */
    var dirs: set<string>
    /** Files whose removal the operating system refuses (a permission error). */
    var locked: set<string>

    constructor (files0: map<string, FileEntry>, dirs0: set<string>, locked0: set<string>)
      ensures files == files0 && dirs == dirs0 && locked == locked0
    {
      files := files0;
      dirs := dirs0;
      locked := locked0;
    }

    /** `os.path.exists(p)` */
    predicate Exists(p: string)
      reads this
    {
      p in files || p in dirs
    }

    /** The bytes at `p`, or `None` when no regular file is there (so any
        library that opens it fails). */
    function Read(p: string): (r: Option<Blob>)
      reads this
      ensures r == Contents(files, p)
    {
      Contents(files, p)
    }

    /** Writing a whole file at time `now` (creating or replacing it). */
    method Write(p: string, data: Blob, now: int)
      modifies this
      ensures files == old(files)[p := FileEntry(data, now)]
      ensures dirs == old(dirs) && locked == old(locked)
    {
      files := files[p := FileEntry(data, now)];
    }

    /** `os.remove(p)`: succeeds on a regular file that is not locked; on a
        missing path, a directory or a locked file it raises and changes nothing. */
    method Remove(p: string) returns (ok: bool)
      modifies this
      ensures ok <==> old(p in files) && p !in locked
      ensures ok ==> files == old(files) - {p}
      ensures !ok ==> files == old(files)
      ensures dirs == old(dirs) && locked == old(locked)
    {
      ok := p in files && p !in locked;
      if ok {
        files := files - {p};
      }
    }

    /** `os.rename(src, dst)` for a regular file `src`; the entry keeps its
        modification time. A missing `src` leaves everything unchanged. */
    method Rename(src: string, dst: string)
      modifies this
      ensures files == Renamed(old(files), src, dst)
      ensures dirs == old(dirs) && locked == old(locked)
    {
      if src in files && src != dst {
        var e := files[src];
        files := (files - {src})[dst := e];
      }
    }

    /** `os.makedirs(d, exist_ok=True)` for the directory itself. */
    method MakeDir(d: string)
      modifies this
      ensures dirs == old(dirs) + {d}
      ensures files == old(files) && locked == old(locked)
    {
      dirs := dirs + {d};
    }
  }
}
