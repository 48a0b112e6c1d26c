/** The handful of Python `str` operations the converter uses, over `string`
    (a sequence of Unicode code points, as a Python `str` is). */
module PyText {

  /** `c.lower()` for ASCII letters; every other code point is left as it is. */
  function LowerChar(c: char): char
  {
    if 'A' <= c <= 'Z' then (c as int + 32) as char else c
  }

  /** `c.upper()` for ASCII letters; every other code point is left as it is. */
  function UpperChar(c: char): char
  {
    if 'a' <= c <= 'z' then (c as int - 32) as char else c
  }

  /** `s.lower()` */
  function Lower(s: string): (r: string)
    ensures |r| == |s|
    ensures forall i :: 0 <= i < |s| ==> r[i] == LowerChar(s[i])
  {
    seq(|s|, i requires 0 <= i < |s| => LowerChar(s[i]))
  }

  /** `s.upper()` */
  function Upper(s: string): (r: string)
    ensures |r| == |s|
    ensures forall i :: 0 <= i < |s| ==> r[i] == UpperChar(s[i])
  {
    seq(|s|, i requires 0 <= i < |s| => UpperChar(s[i]))
  }

  /** Lower-casing undoes upper-casing: both end in the same lower form. */
  lemma LowerOfUpper(s: string)
    ensures Lower(Upper(s)) == Lower(s)
  {
  }

  /** A lowered string holds no capital ASCII letter. */
  lemma LowerHasNoCapitals(s: string)
    ensures forall i :: 0 <= i < |s| ==> !('A' <= Lower(s)[i] <= 'Z')
  {
  }

  /** A string without capital ASCII letters is its own lower form. */
  lemma LowerKeepsLowered(s: string)
    requires forall c :: c in s ==> !('A' <= c <= 'Z')
    ensures Lower(s) == s
  {
    assert forall i :: 0 <= i < |s| ==> s[i] in s;
  }

  /** Lower-casing neither adds nor removes a character that is not a letter. */
  lemma LowerKeepsNonLetters(s: string, c: char)
    requires !('A' <= c <= 'Z') && !('a' <= c <= 'z')
    ensures c in Lower(s) <==> c in s
  {
    if c in Lower(s) {
      var i :| 0 <= i < |s| && Lower(s)[i] == c;
      assert s[i] == c;
    }
    if c in s {
      var i :| 0 <= i < |s| && s[i] == c;
      assert Lower(s)[i] == c;
    }
  }

  /** `c.isspace()`: the code points Python classifies as white space. */
  predicate IsSpace(c: char)
  {
    ('\t' <= c <= '\r') || ('\U{1C}' <= c <= '\U{1F}') || c == ' '
    || c == '\U{85}' || c == '\U{A0}' || c == '\U{1680}'
    || ('\U{2000}' <= c <= '\U{200A}') || c == '\U{2028}' || c == '\U{2029}'
    || c == '\U{202F}' || c == '\U{205F}' || c == '\U{3000}'
  }

  /** `s.lstrip()` */
  function LStrip(s: string): (r: string)
    ensures r == [] || !IsSpace(r[0])
    ensures |r| <= |s| && r == s[|s| - |r|..]
  {
    if s != [] && IsSpace(s[0]) then LStrip(s[1..]) else s
  }

  /** `s.rstrip()` */
  function RStrip(s: string): (r: string)
    ensures r == [] || !IsSpace(r[|r| - 1])
    ensures |r| <= |s| && r == s[..|r|]
  {
    if s != [] && IsSpace(s[|s| - 1]) then RStrip(s[..|s| - 1]) else s
  }

  /** `s.strip()` */
  function Strip(s: string): (r: string)
    ensures r == [] || (!IsSpace(r[0]) && !IsSpace(r[|r| - 1]))
    ensures |r| <= |s|
    ensures forall c :: c in r ==> c in s
  {
    var l := LStrip(s);
    var r := RStrip(l);
    assert r != [] ==> r[0] == l[0];
    assert forall c :: c in r ==> c in l;
    r
  }

  /** `s.lstrip(c)` for a single character `c`. */
  function LStripChar(s: string, c: char): (r: string)
    ensures r == [] || r[0] != c
    ensures |r| <= |s| && r == s[|s| - |r|..]
  {
    if s != [] && s[0] == c then LStripChar(s[1..], c) else s
  }

  /** `sub` starts at position `i` of `s`. */
  predicate OccursAt(sub: string, s: string, i: int)
  {
    0 <= i && i + |sub| <= |s| && s[i..i + |sub|] == sub
  }

  /** `sub in s` for strings: `sub` occurs as a contiguous slice of `s`. */
  ghost predicate Occurs(sub: string, s: string)
  {
    exists i :: OccursAt(sub, s, i)
  }

  /** `sub in s`, computed by trying every starting position in turn. */
  function Contains(s: string, sub: string): (r: bool)
    ensures r <==> Occurs(sub, s)
  {
    if |s| < |sub| then false
    else if s[..|sub|] == sub then
      assert OccursAt(sub, s, 0);
      true
    else
      var r := Contains(s[1..], sub);
      if r then
        var i :| OccursAt(sub, s[1..], i);
        assert OccursAt(sub, s, i + 1);
        true
      else
        assert forall i :: OccursAt(sub, s, i) ==> i == 0 || OccursAt(sub, s[1..], i - 1);
        false
  }

  /** `s.startswith(p)` */
  predicate StartsWith(s: string, p: string)
  {
    |p| <= |s| && s[..|p|] == p
  }

  /** `s.endswith(p)` */
  predicate EndsWith(s: string, p: string)
  {
    |p| <= |s| && s[|s| - |p|..] == p
  }

  /** `s.replace(a, b)` for single characters `a` and `b`. */
  function ReplaceChar(s: string, a: char, b: char): (r: string)
    ensures |r| == |s|
    ensures forall i :: 0 <= i < |s| ==> r[i] == if s[i] == a then b else s[i]
  {
    seq(|s|, i requires 0 <= i < |s| => if s[i] == a then b else s[i])
  }

  /** `ext.lower().lstrip('.')` for an extension that is empty or a dot
      followed by dot-free text: that text, lower-cased. */
  function LowerWithoutDot(ext: string): (r: string)
    requires ext == [] || (ext[0] == '.' && '.' !in ext[1..])
    ensures ext == [] ==> r == []
    ensures ext != [] ==> r == Lower(ext[1..])
    ensures '.' !in r
  {
    var low := Lower(ext);
    if ext == [] then
      LStripChar(low, '.')
    else
      var t := ext[1..];
      assert ext == "." + t;
      assert low == "." + Lower(t);
      assert forall i :: 0 <= i < |t| ==> Lower(t)[i] != '.';
      assert LStripChar(low, '.') == LStripChar(Lower(t), '.');
      LStripChar(low, '.')
  }

  /** `s[:n]`: a prefix of length `n`; a negative `n` counts from the end,
      and any bound beyond the string is clamped to it. */
  function SliceTo(s: string, n: int): (r: string)
    ensures 0 <= n ==> |r| == if n < |s| then n else |s|
    ensures n < 0 ==> |r| == if -n < |s| then |s| + n else 0
    ensures StartsWith(s, r)
  {
    if n >= |s| then s
    else if n >= 0 then s[..n]
    else if -n < |s| then s[..|s| + n]
    else []
  }

  /** The characters of `s` that `keep` accepts, in order: what
      `re.sub('[...]', '', s)` leaves when the class lists the rest. */
  function Filter(s: string, keep: char -> bool): (r: string)
    ensures |r| <= |s|
    ensures forall c :: c in r ==> c in s && keep(c)
    ensures forall c :: c in s && keep(c) ==> c in r
  {
    if s == [] then []
    else if keep(s[0]) then [s[0]] + Filter(s[1..], keep)
    else Filter(s[1..], keep)
  }

  /** `str(n)` for a non-negative integer: its decimal digits. */
  function NatToString(n: nat): (r: string)
    ensures |r| >= 1
    ensures forall c :: c in r ==> '0' <= c <= '9'
  {
    if n < 10 then ["0123456789"[n]]
    else NatToString(n / 10) + ["0123456789"[n % 10]]
  }

  /** `str(n)` for any integer: a minus sign before the digits of a negative one. */
  function IntToString(n: int): (r: string)
    ensures r != []
  {
    if n < 0 then "-" + NatToString(-n) else NatToString(n)
  }
}
