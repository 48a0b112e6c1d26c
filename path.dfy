/** The POSIX path operations of Python's standard library that the converter
    relies on (`os.path` and `pathlib.PurePosixPath`, as in Python 3.12),
    on paths written as strings. */
module PyPath {
  import opened PyText
  import opened Basics

  /** `s.rfind(c)`: the last index of `c` in `s`, or -1 when there is none. */
  function RFind(s: string, c: char): (r: int)
    ensures -1 <= r < |s|
    ensures r >= 0 ==> s[r] == c
    ensures forall k :: r < k < |s| ==> s[k] != c
  {
    if s == [] then -1
    else if s[|s| - 1] == c then |s| - 1
    else RFind(s[..|s| - 1], c)
  }

  /** Searching a concatenation for the last `c`: it lies in the right part
      when the right part has one, and otherwise where it lies in the left part. */
  lemma {:induction false} RFindAppend(a: string, b: string, c: char)
    ensures RFind(a + b, c) == if c in b then |a| + RFind(b, c) else RFind(a, c)
  {
    if b == [] {
      assert a + b == a;
    } else if b[|b| - 1] == c {
    } else {
      assert (a + b)[..|a + b| - 1] == a + b[..|b| - 1];
      RFindAppend(a, b[..|b| - 1], c);
      assert c in b <==> c in b[..|b| - 1] by {
        assert b == b[..|b| - 1] + [b[|b| - 1]];
      }
    }
  }

  /** A tail of `s` in which no position holds `c` does not contain `c`. */
  lemma NotInTail(s: string, i: int, c: char)
    requires 0 <= i <= |s|
    requires forall k :: i <= k < |s| ==> s[k] != c
    ensures c !in s[i..]
  {
  }

  predicate AllSlashes(s: string)
  {
    forall k :: 0 <= k < |s| ==> s[k] == '/'
  }

  /** Every character of `s` is a dot (vacuously so for the empty string). */
  predicate AllDots(s: string)
  {
    s == [] || (s[0] == '.' && AllDots(s[1..]))
  }

  /** `s.rstrip('/')` */
  function RStripSlashes(s: string): (r: string)
    ensures |r| <= |s| && r == s[..|r|]
    ensures r == [] || r[|r| - 1] != '/'
  {
    if s != [] && s[|s| - 1] == '/' then RStripSlashes(s[..|s| - 1]) else s
  }

  /** `os.path.basename(p)`: what follows the last separator. */
  function Basename(p: string): (r: string)
    ensures '/' !in r
    ensures EndsWith(p, r)
  {
    var i := RFind(p, '/');
    NotInTail(p, i + 1, '/');
    p[i + 1..]
  }

  /** `os.path.dirname(p)`: up to the last separator, with trailing separators
      removed unless the head is made of separators only. */
  function Dirname(p: string): string
  {
    var head := p[..RFind(p, '/') + 1];
    if head != [] && !AllSlashes(head) then RStripSlashes(head) else head
  }

  /** `os.path.join(a, b)`: an absolute `b` replaces `a`; otherwise one
      separator is put between them unless `a` is empty or already ends in one. */
  function Join(a: string, b: string): string
  {
    if StartsWith(b, "/") then b
    else if a == [] || a[|a| - 1] == '/' then a + b
    else a + "/" + b
  }

  /** Joining a directory and a plain file name, then taking the base name,
      gives the file name back. */
  lemma BasenameOfJoin(dir: string, name: string)
    requires name != [] && '/' !in name
    ensures Basename(Join(dir, name)) == name
  {
    var p := Join(dir, name);
    var pre := if dir == [] || dir[|dir| - 1] == '/' then dir else dir + "/";
    assert name[0] != '/';
    assert p == pre + name;
    RFindAppend(pre, name, '/');
  }

  /** The shape of an extension as `splitext` returns it: empty, or a dot
      followed by text with neither a dot nor a separator. */
  predicate IsExtension(e: string)
  {
    e == [] || (e[0] == '.' && '.' !in e[1..] && '/' !in e)
  }

  /** The tail of `p` from its last dot, when no separator follows that dot. */
  function TailFromDot(p: string, dot: int): (e: string)
    requires 0 <= dot < |p| && p[dot] == '.'
    requires forall k :: dot < k < |p| ==> p[k] != '.' && p[k] != '/'
    ensures IsExtension(e) && p[..dot] + e == p
  {
    NotInTail(p, dot + 1, '.');
    NotInTail(p, dot, '/');
    assert p[dot..][1..] == p[dot + 1..];
    p[dot..]
  }

  /** `os.path.splitext(p)`: the split is at the last dot of the base name,
      unless everything in the base name before that dot is a dot too
      (so `.bashrc` and `..x` have no extension). */
  function SplitExt(p: string): (r: (string, string))
    ensures r.0 + r.1 == p
    ensures IsExtension(r.1)
  {
    var sep := RFind(p, '/');
    var dot := RFind(p, '.');
    var lead := if dot > sep then p[sep + 1..dot] else [];
    if dot > sep && !AllDots(lead) then
      (p[..dot], TailFromDot(p, dot))
    else
      assert p + [] == p;
      (p, [])
  }

  /** A name without dots has no extension. */
  lemma SplitExtNoDot(p: string)
    requires '.' !in p
    ensures SplitExt(p) == (p, [])
  {
  }

  /** The last `c` sits at `i` (or nowhere, for `i == -1`) when no `c`
      follows `i`. */
  lemma RFindAt(s: string, c: char, i: int)
    requires -1 <= i < |s| && (i >= 0 ==> s[i] == c)
    requires forall k :: i < k < |s| ==> s[k] != c
    ensures RFind(s, c) == i
  {
  }

  /** `splitext("@@.png")` splits at the dot. */
  lemma SplitExtAtDot()
    ensures SplitExt("@@.png") == ("@@", ".png")
  {
    var s := "@@.png";
    forall k | 2 < k < |s|
      ensures s[k] != '.'
    {
      assert k == 3 || k == 4 || k == 5;
    }
    RFindAt(s, '.', 2);
    NoSlashAts();
    assert s[0..2] == "@@" && !AllDots("@@");
    assert s[..2] == "@@" && s[2..] == ".png";
  }

  /** `@@.png` has no separator. */
  lemma NoSlashAts()
    ensures RFind("@@.png", '/') == -1
  {
    var s := "@@.png";
    forall k | 0 <= k < |s|
      ensures s[k] != '/'
    {
      assert k == 0 || k == 1 || k == 2 || k == 3 || k == 4 || k == 5;
    }
    RFindAt(s, '/', -1);
  }

  /** A leading dot belongs to the stem: `.jpg` has no extension. */
  lemma SplitExtLeadingDot()
    ensures SplitExt(".jpg") == (".jpg", [])
  {
    var t := ".jpg";
    forall k | 0 < k < |t|
      ensures t[k] != '.' && t[k] != '/'
    {
      assert k == 1 || k == 2 || k == 3;
    }
    RFindAt(t, '.', 0);
    RFindAt(t, '/', -1);
  }

  /** A stem whose base name holds something other than dots, followed by a
      dot and a dot-free, separator-free suffix, splits exactly there. */
  lemma SplitExtAt(stem: string, t: string)
    requires '.' !in t && '/' !in t
    requires !AllDots(Basename(stem))
    ensures SplitExt(stem + "." + t) == (stem, "." + t)
  {
    var p := stem + "." + t;
    var e := "." + t;
    AppendAssociates(stem, ".", t);
    assert RFind(e, '.') == 0 by {
      RFindAppend(".", t, '.');
    }
    RFindAppend(stem, e, '.');
    RFindAppend(stem, e, '/');
    var sep := RFind(p, '/');
    assert p[sep + 1..|stem|] == Basename(stem) by {
      assert sep == RFind(stem, '/');
      assert p[..|stem|] == stem;
    }
    assert p[..|stem|] == stem && p[|stem|..] == e;
  }

  /** `PurePosixPath(p).name`: the last component, trailing separators ignored. */
  function PathName(p: string): (r: string)
    ensures '/' !in r
  {
    Basename(RStripSlashes(p))
  }

  /** Where the suffix of a file name starts: at its last dot, when that dot
      is neither the name's first nor its last character; otherwise at the
      end of the name. */
  function SuffixStart(name: string): (k: nat)
    ensures k <= |name|
    ensures k < |name| ==> 0 < k < |name| - 1 && name[k] == '.' && '.' !in name[k + 1..]
  {
    var i := RFind(name, '.');
    if 0 < i < |name| - 1 then
      NotInTail(name, i + 1, '.');
      i
    else |name|
  }

  /** `PurePosixPath(p).suffix`: the name from its suffix start on. */
  function PathSuffix(p: string): (r: string)
    ensures r == [] || (r[0] == '.' && |r| >= 2 && '.' !in r[1..])
  {
    var name := PathName(p);
    var k := SuffixStart(name);
    assert k < |name| ==> name[k..][1..] == name[k + 1..];
    name[k..]
  }

  /** For a name without separators that does not start with a dot, the
      `pathlib` suffix and the `splitext` extension agree, except that a
      trailing dot is an extension for `splitext` only. */
  lemma PlainNameSuffix(f: string)
    requires '/' !in f && (f == [] || f[0] != '.')
    ensures PathSuffix(f) == SplitExt(f).1 || (PathSuffix(f) == [] && SplitExt(f).1 == ".")
  {
    assert RFind(f, '/') == -1;
    assert RStripSlashes(f) == f;
    assert PathName(f) == f;
    var i := RFind(f, '.');
    if i >= 0 {
      assert i != 0;
      assert f[0..i] != [] && f[0..i][0] != '.';
      assert !AllDots(f[0..i]);
      assert SplitExt(f).1 == f[i..];
      if i == |f| - 1 {
        assert f[i..] == [f[i]];
      }
    }
  }

  /** `PurePosixPath(p).stem`: the name without its suffix. */
  function PathStem(p: string): string
  {
    var name := PathName(p);
    name[..SuffixStart(name)]
  }

  /** The stem followed by the suffix is the whole name. */
  lemma {:induction false} StemThenSuffix(p: string)
    ensures PathStem(p) + PathSuffix(p) == PathName(p)
  {
    SplitAtJoins(PathName(p), SuffixStart(PathName(p)));
  }

  /** Cutting a string at any position and putting the halves back gives it back. */
  lemma SplitAtJoins(s: string, k: nat)
    requires k <= |s|
    ensures s[..k] + s[k..] == s
  {
  }
}
