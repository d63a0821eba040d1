/** The few `path` and `Uri` operations the core relies on, over
    '/'-separated strings: `Uri.joinPath`, `path.basename`, `path.extname`
    and `path.relative`. */
module Paths {
  import opened Wrappers

  type Path = string

  /** `vscode.Uri.joinPath(dir, name).fsPath`. */
  function Join(dir: Path, name: string): (p: Path)
    ensures |p| == |dir| + 1 + |name|
    ensures p[..|dir|] == dir
  {
    dir + "/" + name
  }

  /** `path.basename(p)`: what follows the last '/'. */
  function BaseName(p: Path): (b: string)
    ensures |b| <= |p| && b == p[|p| - |b|..]
    ensures '/' !in b
    ensures |b| < |p| ==> p[|p| - |b| - 1] == '/'
  {
    if p == [] || p[|p| - 1] == '/' then []
    else BaseName(p[..|p| - 1]) + [p[|p| - 1]]
  }

  lemma {:induction false} BaseNameOfJoin(dir: Path, name: string)
    requires '/' !in name
    ensures BaseName(Join(dir, name)) == name
  {
    var p := Join(dir, name);
    if name != [] {
      var init := name[..|name| - 1];
      assert name[|name| - 1] in name;
      assert '/' !in init by {
        forall c | c in init ensures c != '/' {
          assert c in name;
        }
      }
      BaseNameOfJoin(dir, init);
      assert p[..|p| - 1] == Join(dir, init);
      assert init + [name[|name| - 1]] == name;
    }
  }

  /** The index of the last '.', if any. */
  function LastDot(s: string): (r: Option<nat>)
    ensures r.Some? ==> r.value < |s| && s[r.value] == '.'
    ensures r.Some? ==> '.' !in s[r.value + 1..]
    ensures r.None? ==> '.' !in s
  {
    if s == [] then None
    else if s[|s| - 1] == '.' then Some(|s| - 1)
    else
      var r := LastDot(s[..|s| - 1]);
      assert s == s[..|s| - 1] + [s[|s| - 1]];
      r
  }

  /** `path.extname(p)`: from the last '.' of the base name to its end,
      or empty when the base name has no '.', starts with its only '.', or
      is "..". */
  function Extension(p: Path): string {
    var b := BaseName(p);
    match LastDot(b)
    case None => []
    case Some(d) => if d == 0 || b == ".." then [] else b[d..]
  }

  function LowerAscii(c: char): char {
    if 'A' <= c <= 'Z' then (c as int + 32) as char else c
  }

  /** `path.extname(p).toLowerCase() === '.json'`. Only the ASCII letters
      J, S, O, N lower-case to j, s, o, n, so the comparison is an ASCII
      case-insensitive one. */
  predicate IsJsonPath(p: Path) {
    var e := Extension(p);
    |e| == 5 && e[0] == '.' && LowerAscii(e[1]) == 'j' && LowerAscii(e[2]) == 's'
    && LowerAscii(e[3]) == 'o' && LowerAscii(e[4]) == 'n'
  }

  lemma InitWithout(b: string, c: char)
    requires c !in b && b != []
    ensures c !in b[..|b| - 1] && b[|b| - 1] != c
  {
    assert b == b[..|b| - 1] + [b[|b| - 1]];
  }

  lemma InitOfAppend(a: string, b: string)
    requires b != []
    ensures (a + b)[..|a + b| - 1] == a + b[..|b| - 1]
    ensures (a + b)[|a + b| - 1] == b[|b| - 1]
  {
  }

  lemma {:induction false} LastDotSkips(a: string, b: string)
    requires '.' !in b
    ensures LastDot(a + b) == LastDot(a)
  {
    if b != [] {
      InitWithout(b, '.');
      InitOfAppend(a, b);
      LastDotSkips(a, b[..|b| - 1]);
    } else {
      assert a + b == a;
    }
  }

  lemma CharNotInName(stem: string, ext: string, c: char)
    requires c != '.' && c !in stem && c !in ext
    ensures c !in stem + "." + ext
  {
    var dotted := stem + ".";
    assert c !in dotted;
    assert stem + "." + ext == dotted + ext;
  }

  lemma LastDotOfName(stem: string, ext: string)
    requires '.' !in ext
    ensures LastDot(stem + "." + ext) == Some(|stem|)
  {
    var dotted := stem + ".";
    assert dotted[|dotted| - 1] == '.';
    LastDotSkips(dotted, ext);
  }

  lemma ExtensionPart(stem: string, ext: string)
    ensures (stem + "." + ext)[|stem|..] == "." + ext
  {
  }

  lemma NotDotDot(stem: string, ext: string)
    requires '.' !in stem && stem != []
    ensures stem + "." + ext != ".."
  {
    assert (stem + "." + ext)[0] == stem[0];
    assert stem[0] in stem;
  }

  /** A base name `stem.ext` whose stem is not empty and has no '.' has the
      extension `.ext`; in particular `x.JSON` and `x.json` are JSON paths. */
  lemma ExtensionOfName(dir: Path, stem: string, ext: string)
    requires '/' !in stem && '/' !in ext && '.' !in stem && '.' !in ext && stem != []
    ensures Extension(Join(dir, stem + "." + ext)) == "." + ext
  {
    CharNotInName(stem, ext, '/');
    BaseNameOfJoin(dir, stem + "." + ext);
    LastDotOfName(stem, ext);
    ExtensionPart(stem, ext);
    NotDotDot(stem, ext);
  }

  // ---------------------------------------------------------------------
  // path.relative
  // ---------------------------------------------------------------------

  /** The non-empty '/'-separated segments of a path. */
  function Segments(p: Path): seq<string> {
    SegmentsFrom(p, [])
  }

  function SegmentsFrom(p: Path, current: string): (r: seq<string>)
    ensures forall s :: s in r ==> s != []
    decreases |p|
  {
    if p == [] then (if current == [] then [] else [current])
    else if p[0] == '/' then (if current == [] then [] else [current]) + SegmentsFrom(p[1..], [])
    else SegmentsFrom(p[1..], current + [p[0]])
  }

  function JoinSegments(segs: seq<string>): Path {
    if segs == [] then []
    else if |segs| == 1 then segs[0]
    else segs[0] + "/" + JoinSegments(segs[1..])
  }

  function CommonPrefixLength(a: seq<string>, b: seq<string>): (n: nat)
    ensures n <= |a| && n <= |b| && a[..n] == b[..n]
    ensures n < |a| && n < |b| ==> a[n] != b[n]
  {
    if a == [] || b == [] || a[0] != b[0] then 0
    else
      var n := CommonPrefixLength(a[1..], b[1..]);
      assert a[..n + 1] == [a[0]] + a[1..][..n];
      assert b[..n + 1] == [b[0]] + b[1..][..n];
      1 + n
  }

  function Ups(n: nat): (r: seq<string>)
    ensures |r| == n && forall i :: 0 <= i < n ==> r[i] == ".."
  {
    if n == 0 then [] else [".."] + Ups(n - 1)
  }

  /** `path.relative(from, to)` for absolute paths without "." or ".."
      segments: climb out of what `from` does not share with `to`, then
      descend into the rest of `to`. */
  function Relative(from: Path, to: Path): Path {
    var f := Segments(from);
    var t := Segments(to);
    var n := CommonPrefixLength(f, t);
    JoinSegments(Ups(|f| - n) + t[n..])
  }

  /** A path whose segments extend those of `from` is written relative to
      `from` by its extra segments alone; the same path gives "". */
  lemma RelativeOfDescendant(from: Path, to: Path, rest: seq<string>)
    requires Segments(to) == Segments(from) + rest
    ensures Relative(from, to) == JoinSegments(rest)
  {
    var f := Segments(from);
    var t := Segments(to);
    var n := CommonPrefixLength(f, t);
    assert t[..|f|] == f;
    assert n == |f|;
    assert t[n..] == rest;
    assert Ups(|f| - n) + t[n..] == rest;
  }

  lemma RelativeToItself(p: Path)
    ensures Relative(p, p) == ""
  {
    RelativeOfDescendant(p, p, []);
    assert Segments(p) + [] == Segments(p);
  }

  lemma {:induction false} JoinSegmentsEmpty(segs: seq<string>)
    requires forall s :: s in segs ==> s != []
    ensures JoinSegments(segs) == [] <==> segs == []
  {
    if |segs| == 1 {
      assert segs[0] in segs;
    } else if |segs| > 1 {
      assert segs[0] in segs;
    }
  }

  /** The label of a copied file (src/commands.ts, lines 74-78): with a
      root, the path relative to it, or the base name when that relative
      path is empty; without a root, the file path itself. */
  function DisplayPath(filePath: Path, root: Option<Path>): string {
    match root
    case None => filePath
    case Some(r) =>
      var rel := Relative(r, filePath);
      if rel == [] then BaseName(filePath) else rel
  }

  /** A file below the root is labelled by its segments under the root; the
      root itself by its base name; without a root, by its full path. */
  lemma DisplayPathSpec(filePath: Path, root: Option<Path>, rest: seq<string>)
    requires root.Some? ==> Segments(filePath) == Segments(root.value) + rest
    ensures root.None? ==> DisplayPath(filePath, root) == filePath
    ensures root.Some? && rest != [] ==> DisplayPath(filePath, root) == JoinSegments(rest)
    ensures root.Some? && rest == [] ==> DisplayPath(filePath, root) == BaseName(filePath)
  {
    if root.Some? {
      RelativeOfDescendant(root.value, filePath, rest);
      var t := Segments(filePath);
      assert forall s :: s in rest ==> s in t;
      JoinSegmentsEmpty(rest);
    }
  }
}
