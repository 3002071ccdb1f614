/** The parts of Node's `path` module (POSIX flavour) that `convertToWavType`
    uses: `extname`, `basename` with a suffix, `dirname` and `join`, and
    `String.prototype.toLowerCase`. `basename`, `extname` and `dirname`
    follow Node's algorithm on paths without a trailing slash; `join` is
    stated for the "simple" paths of `SimplePath`, on which Node's
    normalisation has nothing to do. */
module NodePath {
  import opened Options

  type Path = string

  /** The index of the last occurrence of `c` in `s`, if any. */
  function LastIndexOf(s: string, c: char): (r: Option<nat>)
    ensures r.Some? ==> r.value < |s| && s[r.value] == c
    ensures r.Some? ==> forall j :: r.value < j < |s| ==> s[j] != c
    ensures r.None? ==> forall j :: 0 <= j < |s| ==> s[j] != c
    decreases |s|
  {
    if s == [] then None
    else if s[|s| - 1] == c then Some(|s| - 1)
    else LastIndexOf(s[..|s| - 1], c)
  }

  /** `basename(p)`: the part after the last '/', which is the longest
      suffix of `p` without a '/'. */
  function BaseName(p: Path): (b: string)
    ensures |b| <= |p| && b == p[|p| - |b|..]
    ensures forall i :: 0 <= i < |b| ==> b[i] != '/'
    ensures |b| < |p| ==> p[|p| - |b| - 1] == '/'
  {
    match LastIndexOf(p, '/')
    case None => p
    case Some(j) => p[j + 1..]
  }

  /** `dirname(p)`: "." without a '/', "/" for a root entry, "//" for an
      entry under a leading "//" (Node keeps that root), otherwise
      everything before the last '/'. */
  function DirName(p: Path): (d: Path)
    ensures LastIndexOf(p, '/').None? ==> d == "."
    ensures LastIndexOf(p, '/').Some? ==> d != "" && d <= DirPrefix(p)
    ensures LastIndexOf(p, '/').Some? ==>
      var dp := DirPrefix(p); if dp == "/" || dp == "//" then d == dp else d + "/" == dp
  {
    match LastIndexOf(p, '/')
    case None => "."
    case Some(j) => if j == 0 then "/" else if j == 1 && p[0] == '/' then "//" else p[..j]
  }

  /** `extname(p)`: from the last '.' of the last part to its end, or "" when
      the last part has no '.', starts with its only '.', or is "..". */
  function ExtName(p: Path): (e: string)
    ensures e != "" ==> e[0] == '.' && |e| < |BaseName(p)|
    ensures e == p[|p| - |e|..]
    ensures forall i :: 1 <= i < |e| ==> e[i] != '.' && e[i] != '/'
    ensures var b := BaseName(p);
      b != ".." && (exists k :: 0 < k < |b| && b[k] == '.') ==> e != ""
    ensures BaseName(p) == ".." ==> e == ""
  {
    var b := BaseName(p);
    if b == ".." then ""
    else match LastIndexOf(b, '.')
      case None => ""
      case Some(k) => if k == 0 then "" else b[k..]
  }

  /** `basename(p, suffix)`: the last part with `suffix` removed when it is a
      proper, case-sensitive suffix of it; "" when the whole path is the suffix. */
  function BaseNameWithout(p: Path, suffix: string): (r: string)
    ensures r == "" || r == BaseName(p) || (0 < |r| < |BaseName(p)| && BaseName(p) == r + suffix)
  {
    var b := BaseName(p);
    if suffix != "" && suffix == p then ""
    else if 0 < |suffix| < |b| && b[|b| - |suffix|..] == suffix then
      assert b == b[..|b| - |suffix|] + suffix;
      b[..|b| - |suffix|]
    else b
  }

  /** `join(dir, name)` for a directory produced by `DirName` and a plain name. */
  function Join(dir: Path, name: string): Path
  {
    if dir == "." then name
    else if dir == "/" then "/" + name
    else dir + "/" + name
  }

  /** `toLowerCase`, on the ASCII letters. */
  function LowerChar(c: char): char
  {
    if 'A' <= c <= 'Z' then (c as int + 32) as char else c
  }

  function ToLower(s: string): (r: string)
    ensures |r| == |s|
  {
    seq(|s|, i requires 0 <= i < |s| => LowerChar(s[i]))
  }

  /** A last part that names an entry: neither empty nor "." nor "..". */
  predicate PlainPart(part: string)
  {
    part != "" && part != "." && part != ".."
  }

  /** A path Node's `join` leaves as it is: parts separated by single slashes,
      possibly from the root, no trailing slash, none of them "." or "..";
      that is, the last part and the last part of every directory before a
      '/' are plain. */
  predicate SimplePath(p: Path)
  {
    PlainPart(BaseName(p)) &&
    forall j {:trigger PlainParent(p, j)} :: 0 < j < |p| && p[j] == '/' ==> PlainParent(p, j)
  }

  /** The directory `p[..j]` ends in a plain part. */
  predicate PlainParent(p: Path, j: nat)
  {
    j <= |p| && PlainPart(BaseName(p[..j]))
  }

  /** The directory part of `p`, with its trailing '/'. */
  function DirPrefix(p: Path): (d: Path)
    ensures p == d + BaseName(p)
  {
    p[..|p| - |BaseName(p)|]
  }

  // ---------------------------------------------------------------------
  // Lemmas

  /** The contract of `LastIndexOf` determines its result. */
  lemma LastIndexOfUnique(s: string, c: char, r: Option<nat>)
    requires r.Some? ==> r.value < |s| && s[r.value] == c
    requires r.Some? ==> forall j :: r.value < j < |s| ==> s[j] != c
    requires r.None? ==> forall j :: 0 <= j < |s| ==> s[j] != c
    ensures LastIndexOf(s, c) == r
  {
    var q := LastIndexOf(s, c);
    if q.Some? && r.Some? {
      assert !(q.value < r.value) && !(r.value < q.value);
    }
  }

  /** Appending characters other than `c` does not move its last occurrence. */
  lemma LastIndexOfAppend(s: string, t: string, c: char)
    requires forall i :: 0 <= i < |t| ==> t[i] != c
    ensures LastIndexOf(s + t, c) == LastIndexOf(s, c)
  {
    var r := LastIndexOf(s, c);
    var st := s + t;
    if r.Some? {
      forall j | r.value < j < |st| ensures st[j] != c {
        if j >= |s| { assert st[j] == t[j - |s|]; }
      }
    } else {
      forall j | 0 <= j < |st| ensures st[j] != c {
        if j >= |s| { assert st[j] == t[j - |s|]; }
      }
    }
    LastIndexOfUnique(st, c, r);
  }

  /** The base name of a directory prefix followed by a plain name is that name. */
  lemma BaseNameOfAppend(p: Path, name: string)
    requires name != "" && forall i :: 0 <= i < |name| ==> name[i] != '/'
    ensures BaseName(DirPrefix(p) + name) == name
    ensures LastIndexOf(DirPrefix(p) + name, '/') == LastIndexOf(p, '/')
  {
    var d := DirPrefix(p);
    var b := BaseName(p);
    LastIndexOfAppend(d, name, '/');
    LastIndexOfAppend(d, b, '/');
    var q := d + name;
    assert |d| > 0 ==> d[|d| - 1] == '/';
    if |d| > 0 {
      LastIndexOfUnique(d, '/', Some(|d| - 1));
      assert q[|d|..] == name;
    } else {
      LastIndexOfUnique(d, '/', None);
      assert q == name;
    }
  }

  /** The parent of a simple path that has a '/' after its first character. */
  lemma SimpleParent(p: Path, j: nat)
    requires SimplePath(p) && LastIndexOf(p, '/') == Some(j) && j > 0
    ensures SimplePath(p[..j])
    ensures p[..j] != "." && p[..j] != "/"
  {
    var d := p[..j];
    assert PlainParent(p, j);
    forall k | 0 < k < |d| && d[k] == '/' ensures PlainParent(d, k) {
      assert d[..k] == p[..k];
      assert PlainParent(p, k);
    }
    if |d| == 1 && d[0] != '/' {
      LastIndexOfUnique(d, '/', None);
    }
  }

  /** On a simple path, joining `dirname(p)` with a plain name replaces the last part. */
  lemma JoinDirName(p: Path, name: string)
    requires SimplePath(p)
    ensures Join(DirName(p), name) == DirPrefix(p) + name
  {
    var r := LastIndexOf(p, '/');
    if r == None {
      assert BaseName(p) == p;
    } else if r == Some(0) {
      JoinAtRoot(p, name);
    } else {
      SimpleParent(p, r.value);
      JoinBelowParent(p, name, r.value);
    }
  }

  lemma JoinAtRoot(p: Path, name: string)
    requires LastIndexOf(p, '/') == Some(0)
    ensures Join(DirName(p), name) == DirPrefix(p) + name
  {
    assert DirPrefix(p) == p[..1];
  }

  lemma JoinBelowParent(p: Path, name: string, j: nat)
    requires LastIndexOf(p, '/') == Some(j) && j > 0
    requires p[..j] != "." && p[..j] != "/"
    ensures Join(DirName(p), name) == DirPrefix(p) + name
  {
    assert DirPrefix(p) == p[..j + 1] == p[..j] + "/";
  }

  /** Replacing the last part of a simple path by another plain name gives a simple path. */
  lemma SimplePathRename(p: Path, name: string)
    requires SimplePath(p)
    requires PlainPart(name) && forall i :: 0 <= i < |name| ==> name[i] != '/'
    ensures SimplePath(DirPrefix(p) + name)
  {
    BaseNameOfAppend(p, name);
    ParentsOfAppend(p, DirPrefix(p), name);
  }

  /** The directories before each '/' of `d + name` are those of `p` when `d` is a prefix of `p`. */
  lemma ParentsOfAppend(p: Path, d: Path, name: string)
    requires d <= p
    requires forall j {:trigger PlainParent(p, j)} :: 0 < j < |p| && p[j] == '/' ==> PlainParent(p, j)
    requires forall i :: 0 <= i < |name| ==> name[i] != '/'
    ensures var q := d + name;
      forall k {:trigger PlainParent(q, k)} :: 0 < k < |q| && q[k] == '/' ==> PlainParent(q, k)
  {
    var q := d + name;
    forall i | |d| <= i < |q| ensures q[i] != '/' {
      assert q[i] == name[i - |d|];
    }
    forall k | 0 < k < |q| && q[k] == '/' ensures PlainParent(q, k) {
      assert q[k] == p[k];
      assert q[..k] == p[..k];
      assert PlainParent(p, k);
    }
  }

  /** A name that ends in ".wav" after at least one character has extension ".wav". */
  lemma ExtNameOfWavName(p: Path, stem: string)
    requires stem != "" && forall i :: 0 <= i < |stem| ==> stem[i] != '/'
    ensures ExtName(DirPrefix(p) + (stem + ".wav")) == ".wav"
  {
    BaseNameOfAppend(p, stem + ".wav");
    ExtNameOfWavPart(DirPrefix(p) + (stem + ".wav"), stem);
  }

  lemma ExtNameOfWavPart(q: Path, stem: string)
    requires stem != "" && BaseName(q) == stem + ".wav"
    ensures ExtName(q) == ".wav"
  {
    var name := stem + ".wav";
    forall j | |stem| < j < |name| ensures name[j] != '.' {
      assert name[j] == ".wav"[j - |stem|];
    }
    assert name[|stem|] == '.';
    LastIndexOfUnique(name, '.', Some(|stem|));
    assert name != "..";
    assert name[|stem|..] == ".wav";
  }

  /** `toLowerCase` leaves a string unchanged exactly when it has no upper-case letter. */
  lemma ToLowerFixed(s: string)
    ensures ToLower(s) == s <==> forall i :: 0 <= i < |s| ==> !('A' <= s[i] <= 'Z')
  {
    if ToLower(s) == s {
      forall i | 0 <= i < |s| ensures !('A' <= s[i] <= 'Z') {
        assert ToLower(s)[i] == LowerChar(s[i]);
      }
    }
  }

  /** `basename(p, e.toLowerCase())` with `e = extname(p)` strips the extension
      exactly when it has no upper-case letter: "speech.mp3" gives "speech",
      "speech.MP3" keeps "speech.MP3". */
  lemma StemKeepsUpperCaseExtension(p: Path)
    requires SimplePath(p)
    ensures var e, b := ExtName(p), BaseName(p);
      BaseNameWithout(p, ToLower(e)) == if e != "" && ToLower(e) == e then b[..|b| - |e|] else b
  {
    var e, b := ExtName(p), BaseName(p);
    var d := DirPrefix(p);
    assert p == d + b;
    assert |e| < |b| by {
      assert PlainPart(b);
    }
    assert e == b[|b| - |e|..] by {
      assert p[|p| - |e|..] == b[|b| - |e|..];
    }
    assert |ToLower(e)| == |e|;
    StripSuffix(p, ToLower(e), e);
  }

  lemma StripSuffix(p: Path, l: string, e: string)
    requires |l| == |e| < |BaseName(p)|
    requires e == BaseName(p)[|BaseName(p)| - |e|..]
    ensures BaseNameWithout(p, l) == if e != "" && l == e then BaseName(p)[..|BaseName(p)| - |e|] else BaseName(p)
  {
  }

  /** Node keeps a leading "//" as the root: `dirname("//b")` is "//", while
      `dirname("/b")` is "/" and `dirname("a//b")` is "a/". */
  lemma DoubleSlashRootExample()
    ensures DirName("//b") == "//" && DirName("/b") == "/" && DirName("a//b") == "a/"
  {
    LastIndexOfUnique("//b", '/', Some(1));
    LastIndexOfUnique("/b", '/', Some(0));
    LastIndexOfUnique("a//b", '/', Some(2));
  }
}
