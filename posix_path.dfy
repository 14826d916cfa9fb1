/** Node's `path.basename` and `path.extname` on POSIX paths (one argument), which the
    provider uses to name a stat result and to derive file extensions. */
module PosixPath {
  import opened JsString

  /** The index of the last `c` in `s`, or -1 when `s` has none. */
  function LastIndexOf(s: string, c: char): (k: int)
    ensures -1 <= k < |s|
    ensures k >= 0 ==> s[k] == c
    ensures forall i :: k < i < |s| ==> s[i] != c
  {
    if s == [] then -1
    else if s[|s| - 1] == c then |s| - 1
    else LastIndexOf(s[..|s| - 1], c)
  }

  /** `p` without the run of `/` at its end. */
  function StripTrailingSlashes(p: string): (r: string)
    ensures |r| <= |p| && r == p[..|r|]
    ensures r == [] || r[|r| - 1] != '/'
    ensures forall i :: |r| <= i < |p| ==> p[i] == '/'
  {
    if p != [] && p[|p| - 1] == '/' then StripTrailingSlashes(p[..|p| - 1]) else p
  }

  /** What follows the last `/` of `p` (all of `p` when it has none). */
  function LastSegment(p: string): (r: string)
    ensures |r| <= |p| && r == p[|p| - |r|..]
    ensures '/' !in r
    ensures |r| < |p| ==> p[|p| - |r| - 1] == '/'
  {
    p[LastIndexOf(p, '/') + 1..]
  }

  /** The trailing separators of `p` start at index `j`: everything from `j` on is `/`,
      and the character before `j`, if any, is not. */
  predicate TrailingSlashesFrom(p: string, j: int)
  {
    0 <= j <= |p| && (j == 0 || p[j - 1] != '/') && forall k :: j <= k < |p| ==> p[k] == '/'
  }

  /** `r` ends at index `j` of `p`, where the trailing separators of `p` begin, and starts
      right after the separator before it, or at the start of `p`. */
  predicate LastSegmentEndsAt(r: string, p: string, j: int)
  {
    TrailingSlashesFrom(p, j) && |r| <= j && r == p[j - |r|..j]
      && (j == |r| || p[j - |r| - 1] == '/')
  }

  /** `r` is the last segment of `p`, trailing separators ignored. */
  ghost predicate IsLastSegmentOf(r: string, p: string)
  {
    exists j :: LastSegmentEndsAt(r, p, j)
  }

  /** `path.basename(p)`: the last segment of `p`, trailing separators ignored. */
  function Basename(p: string): (r: string)
    ensures '/' !in r
    ensures IsLastSegmentOf(r, p)
  {
    var t := StripTrailingSlashes(p);
    var r := LastSegment(t);
    BasenameShape(p, t, r);
    r
  }

  lemma BasenameShape(p: string, t: string, r: string)
    requires t == StripTrailingSlashes(p) && r == LastSegment(t)
    ensures LastSegmentEndsAt(r, p, |t|)
  {
    var j := |t|;
    assert r == p[j - |r|..j];
    assert j == 0 || p[j - 1] == t[j - 1];
    assert j == |r| || p[j - |r| - 1] == t[j - |r| - 1];
  }

  /** The trailing separators of a path start at one index only. */
  lemma TrailingSlashesUnique(p: string, j1: int, j2: int)
    requires TrailingSlashesFrom(p, j1) && TrailingSlashesFrom(p, j2)
    ensures j1 == j2
  {
  }

  /** Two separator-free runs that end at the same index and start after a separator (or at
      the start) are the same run. */
  lemma SegmentEndingAtUnique(r1: string, r2: string, p: string, j: int)
    requires '/' !in r1 && '/' !in r2
    requires LastSegmentEndsAt(r1, p, j) && LastSegmentEndsAt(r2, p, j)
    ensures r1 == r2
  {
  }

  /** Exactly one separator-free name is the last segment of a path, so the contract of
      `Basename` fixes its result. */
  lemma LastSegmentUnique(r1: string, r2: string, p: string)
    requires '/' !in r1 && '/' !in r2
    requires IsLastSegmentOf(r1, p) && IsLastSegmentOf(r2, p)
    ensures r1 == r2
  {
    var j1 :| LastSegmentEndsAt(r1, p, j1);
    var j2 :| LastSegmentEndsAt(r2, p, j2);
    TrailingSlashesUnique(p, j1, j2);
    SegmentEndingAtUnique(r1, r2, p, j1);
  }

  /** The extension of one path segment: from its last `.` to its end, except that a segment
      without a dot, whose last dot is its first character (a dotfile such as `.bashrc`),
      or that is `..`, has none. */
  function SegmentExtname(segment: string): (r: string)
    ensures r != [] ==> var k := |segment| - |r|;
      0 < k && r == segment[k..] && r[0] == '.' && forall i :: 0 < i < |r| ==> r[i] != '.'
  {
    var k := LastIndexOf(segment, '.');
    if k <= 0 || segment == ".." then [] else segment[k..]
  }

  /** `path.extname(p)`: the extension of the basename, dot included (`""` when none). */
  function Extname(p: string): (r: string)
    ensures r == [] || (r[0] == '.' && (forall i :: 0 < i < |r| ==> r[i] != '.') && '/' !in r)
    ensures r != [] ==> |r| < |Basename(p)| && Basename(p)[|Basename(p)| - |r|..] == r
  {
    var b := Basename(p);
    var r := SegmentExtname(b);
    SuffixLacks(b, |b| - |r|, '/');
    r
  }

  /** A suffix of a string that has no `c` has none either. */
  lemma SuffixLacks(s: string, k: nat, c: char)
    requires k <= |s| && c !in s
    ensures c !in s[k..]
  {
    forall i | 0 <= i < |s| - k
      ensures s[k..][i] != c
    {
      assert s[k..][i] == s[k + i];
    }
  }

  /** A basename is its own basename. */
  lemma BasenameIdempotent(p: string)
    ensures Basename(Basename(p)) == Basename(p)
  {
    var b := Basename(p);
    assert StripTrailingSlashes(b) == b;
    assert LastIndexOf(b, '/') == -1;
  }

  /** The last `c` of `a + [c] + b` is the one after `a` when `b` has none. */
  lemma LastIndexOfAfter(a: string, c: char, b: string)
    requires c !in b
    ensures LastIndexOf(a + [c] + b, c) == |a|
  {
    var x := a + [c] + b;
    assert x[|a|] == c;
  }

  /** A string without `c` has no last `c`. */
  lemma LastIndexOfAbsent(s: string, c: char)
    requires c !in s
    ensures LastIndexOf(s, c) == -1
  {
  }

  /** A path without separators is its own basename. */
  lemma BasenameOfSegment(name: string)
    requires '/' !in name
    ensures Basename(name) == name
  {
    assert name == [] || name[|name| - 1] != '/';
    assert StripTrailingSlashes(name) == name;
    LastIndexOfAbsent(name, '/');
  }

  /** A name made of a non-empty stem, a dot and a dot-free suffix has that suffix as its
      extension (`..` being the one name of that form treated as having none). */
  lemma ExtnameOfStemAndSuffix(stem: string, suffix: string)
    requires stem != [] && '/' !in stem
    requires '.' !in suffix && '/' !in suffix
    ensures Extname(stem + "." + suffix) == if stem == "." && suffix == [] then [] else "." + suffix
  {
    var name := stem + "." + suffix;
    assert name == stem + ['.'] + suffix;
    LastIndexOfAfter(stem, '.', suffix);
    assert '/' !in name;
    BasenameOfSegment(name);
    assert name[|stem|..] == "." + suffix;
  }

  /** A dotfile whose only dot leads its name has no extension. */
  lemma DotfileHasNoExtname(suffix: string)
    requires '.' !in suffix && '/' !in suffix
    ensures Extname("." + suffix) == []
  {
    var name := "." + suffix;
    assert name == [] + ['.'] + suffix;
    LastIndexOfAfter([], '.', suffix);
    assert '/' !in name;
    BasenameOfSegment(name);
  }
}
