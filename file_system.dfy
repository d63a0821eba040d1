/** The workspace as the provider sees it: a finite map from the path of a
    readable directory to its listing. A path outside the map is one whose
    `readDirectory` fails. The descendant files of a directory are defined
    here by recursion over that map; the breadth-first walk that computes
    them lives with the provider. */
module FileSystem {
  import opened Paths

  /** `vscode.FileType` as the provider tests it. The provider compares the
      type with `===`, so a symbolic link (whose type carries the
      `SymbolicLink` bit) and an unknown entry are neither a file nor a
      directory: both are `Other`. */
  datatype FileKind = File | Directory | Other

  /** One `[name, type]` pair of a directory listing. */
  datatype Entry = Entry(name: string, kind: FileKind)

  type FileSystem = map<Path, seq<Entry>>

  /** The names the provider never lists and never descends into
      (src/fileSystemProvider.ts, lines 60-70 and 114-124). */
  const IgnoredNames: set<string> :=
    {"node_modules", ".git", ".vscode", "package-lock.json", "yarn.lock",
     "yarn-lock.json", "env", "venv", "__pycache__"}

  predicate Ignored(name: string) {
    name in IgnoredNames
  }

  /** Every name a listing reports is a single path segment. */
  predicate WellFormed(fs: FileSystem) {
    forall d, k :: d in fs && 0 <= k < |fs[d]| ==> '/' !in fs[d][k].name
  }

  /** The readable directories strictly longer than `d`; a child path is
      always longer than its parent, which bounds the recursion below. */
  function LongerKeys(fs: FileSystem, d: Path): set<Path> {
    set k | k in fs && |k| > |d|
  }

  lemma LongerKeysShrink(fs: FileSystem, d: Path, c: Path)
    requires c in fs && |c| > |d|
    ensures LongerKeys(fs, c) < LongerKeys(fs, d)
  {
    assert c in LongerKeys(fs, d) && c !in LongerKeys(fs, c);
  }

  /** The paths of kind `kind` found below the entries `i..` of directory
      `d`: a non-ignored entry of that kind, and everything below a
      non-ignored readable sub-directory. */
  function ScanFrom(fs: FileSystem, d: Path, kind: FileKind, i: nat): set<Path>
    requires d in fs && i <= |fs[d]|
    decreases LongerKeys(fs, d), |fs[d]| - i
  {
    if i == |fs[d]| then {}
    else
      var e := fs[d][i];
      var c := Join(d, e.name);
      var here := if !Ignored(e.name) && e.kind == kind then {c} else {};
      var below :=
        if !Ignored(e.name) && e.kind == Directory && c in fs then
          LongerKeysShrink(fs, d, c);
          ScanFrom(fs, c, kind, 0)
        else {};
      here + below + ScanFrom(fs, d, kind, i + 1)
  }

  /** All paths of kind `kind` strictly below `d`, reached through
      non-ignored directories; nothing when `d` cannot be read. */
  function Descendants(fs: FileSystem, d: Path, kind: FileKind): set<Path> {
    if d in fs then ScanFrom(fs, d, kind, 0) else {}
  }

  /** Every non-ignored entry of `v` of kind `kind` lies in `s`, looking at
      the first `n` entries only. */
  predicate EntriesIn(fs: FileSystem, v: Path, n: nat, kind: FileKind, s: set<Path>)
    requires v in fs && n <= |fs[v]|
  {
    forall k :: 0 <= k < n && !Ignored(fs[v][k].name) && fs[v][k].kind == kind ==>
      Join(v, fs[v][k].name) in s
  }

  /** `V` is closed under non-ignored sub-directories and `F` holds every
      non-ignored entry of kind `kind` of a readable directory in `V`. */
  predicate Closed(fs: FileSystem, V: set<Path>, F: set<Path>, kind: FileKind) {
    forall v :: v in V && v in fs ==>
      EntriesIn(fs, v, |fs[v]|, Directory, V) && EntriesIn(fs, v, |fs[v]|, kind, F)
  }

  lemma {:induction false} ScanEntry(fs: FileSystem, d: Path, kind: FileKind, i: nat, k: nat)
    requires d in fs && i <= k < |fs[d]| && !Ignored(fs[d][k].name)
    ensures fs[d][k].kind == kind ==> Join(d, fs[d][k].name) in ScanFrom(fs, d, kind, i)
    ensures fs[d][k].kind == Directory && Join(d, fs[d][k].name) in fs ==>
      ScanFrom(fs, Join(d, fs[d][k].name), kind, 0) <= ScanFrom(fs, d, kind, i)
    decreases k - i
  {
    if i < k {
      ScanEntry(fs, d, kind, i + 1, k);
    }
  }

  /** A non-ignored child of kind `kind` is a descendant; everything below a
      non-ignored readable sub-directory is a descendant. */
  lemma ChildIsDescendant(fs: FileSystem, d: Path, kind: FileKind, k: nat)
    requires d in fs && k < |fs[d]| && !Ignored(fs[d][k].name)
    ensures fs[d][k].kind == kind ==> Join(d, fs[d][k].name) in Descendants(fs, d, kind)
    ensures fs[d][k].kind == Directory ==>
      Descendants(fs, Join(d, fs[d][k].name), kind) <= Descendants(fs, d, kind)
  {
    ScanEntry(fs, d, kind, 0, k);
  }

  lemma {:induction false} ScanTransitive(fs: FileSystem, d: Path, kind: FileKind, i: nat, x: Path)
    requires d in fs && i <= |fs[d]| && x in ScanFrom(fs, d, Directory, i)
    ensures Descendants(fs, x, kind) <= ScanFrom(fs, d, kind, i)
    decreases LongerKeys(fs, d), |fs[d]| - i
  {
    var e := fs[d][i];
    var c := Join(d, e.name);
    if !Ignored(e.name) && e.kind == Directory && c in fs && x in ScanFrom(fs, c, Directory, 0) {
      LongerKeysShrink(fs, d, c);
      ScanTransitive(fs, c, kind, 0, x);
    } else if x != c || Ignored(e.name) || e.kind != Directory {
      ScanTransitive(fs, d, kind, i + 1, x);
    }
  }

  /** Descendants of a descendant directory are descendants. */
  lemma DescendantsTransitive(fs: FileSystem, d: Path, kind: FileKind, x: Path)
    requires x in Descendants(fs, d, Directory)
    ensures Descendants(fs, x, kind) <= Descendants(fs, d, kind)
  {
    ScanTransitive(fs, d, kind, 0, x);
  }

  /** A non-ignored entry of `d` or of one of its descendant directories
      is a descendant of `d`. */
  lemma ChildReached(fs: FileSystem, d: Path, p: Path, kind: FileKind, k: nat)
    requires p == d || p in Descendants(fs, d, Directory)
    requires p in fs && k < |fs[p]| && !Ignored(fs[p][k].name) && fs[p][k].kind == kind
    ensures Join(p, fs[p][k].name) in Descendants(fs, d, kind)
  {
    ChildIsDescendant(fs, p, kind, k);
    if p != d {
      DescendantsTransitive(fs, d, kind, p);
    }
  }

  /** Every readable directory of `V` has its non-ignored files in `F`
      and its non-ignored sub-directories in `R`: the state of a walk that
      has expanded `V`. */
  predicate Expanded(fs: FileSystem, V: set<Path>, F: set<Path>, R: set<Path>) {
    forall v :: v in V && v in fs ==>
      EntriesIn(fs, v, |fs[v]|, File, F) && EntriesIn(fs, v, |fs[v]|, Directory, R)
  }

  lemma EntriesInMono(fs: FileSystem, v: Path, n: nat, kind: FileKind, s: set<Path>, t: set<Path>)
    requires v in fs && n <= |fs[v]| && EntriesIn(fs, v, n, kind, s) && s <= t
    ensures EntriesIn(fs, v, n, kind, t)
  {
  }

  lemma ExpandedMono(fs: FileSystem, V: set<Path>, F: set<Path>, R: set<Path>, F2: set<Path>, R2: set<Path>)
    requires Expanded(fs, V, F, R) && F <= F2 && R <= R2
    ensures Expanded(fs, V, F2, R2)
  {
    forall v | v in V && v in fs
      ensures EntriesIn(fs, v, |fs[v]|, File, F2) && EntriesIn(fs, v, |fs[v]|, Directory, R2)
    {
      EntriesInMono(fs, v, |fs[v]|, File, F, F2);
      EntriesInMono(fs, v, |fs[v]|, Directory, R, R2);
    }
  }

  lemma ExpandedAdd(fs: FileSystem, V: set<Path>, F: set<Path>, R: set<Path>, c: Path)
    requires Expanded(fs, V, F, R)
    requires c in fs ==> EntriesIn(fs, c, |fs[c]|, File, F) && EntriesIn(fs, c, |fs[c]|, Directory, R)
    ensures Expanded(fs, V + {c}, F, R)
  {
  }

  /** The end of a walk: everything expanded, nothing left to visit. */
  lemma ExpandedClosed(fs: FileSystem, V: set<Path>, F: set<Path>)
    requires Expanded(fs, V, F, V)
    ensures Closed(fs, V, F, File) && Closed(fs, V, V, Directory)
  {
  }

  /** One more entry looked at: if it is of kind `kind` and not ignored,
      its path must now be in `t`. */
  lemma EntriesInStep(fs: FileSystem, v: Path, n: nat, kind: FileKind, s: set<Path>, t: set<Path>)
    requires v in fs && n < |fs[v]| && EntriesIn(fs, v, n, kind, s) && s <= t
    requires !Ignored(fs[v][n].name) && fs[v][n].kind == kind ==> Join(v, fs[v][n].name) in t
    ensures EntriesIn(fs, v, n + 1, kind, t)
  {
  }

  lemma {:induction false} ScanClosed(fs: FileSystem, V: set<Path>, F: set<Path>, kind: FileKind, d: Path, i: nat)
    requires Closed(fs, V, F, kind) && d in V && d in fs && i <= |fs[d]|
    ensures ScanFrom(fs, d, kind, i) <= F
    decreases LongerKeys(fs, d), |fs[d]| - i
  {
    if i < |fs[d]| {
      var e := fs[d][i];
      var c := Join(d, e.name);
      assert EntriesIn(fs, d, |fs[d]|, Directory, V) && EntriesIn(fs, d, |fs[d]|, kind, F);
      if !Ignored(e.name) && e.kind == Directory && c in fs {
        LongerKeysShrink(fs, d, c);
        ScanClosed(fs, V, F, kind, c, 0);
      }
      ScanClosed(fs, V, F, kind, d, i + 1);
    }
  }

  /** A set of directories closed under non-ignored sub-directories holds,
      through `F`, every descendant of each of its members. */
  lemma DescendantsClosed(fs: FileSystem, V: set<Path>, F: set<Path>, kind: FileKind, d: Path)
    requires Closed(fs, V, F, kind) && d in V
    ensures Descendants(fs, d, kind) <= F
  {
    if d in fs {
      ScanClosed(fs, V, F, kind, d, 0);
    }
  }

  lemma {:induction false} ScanShape(fs: FileSystem, d: Path, kind: FileKind, i: nat, x: Path)
    returns (p: Path, k: nat)
    requires d in fs && i <= |fs[d]| && x in ScanFrom(fs, d, kind, i)
    ensures p in fs && k < |fs[p]| && fs[p][k].kind == kind && !Ignored(fs[p][k].name)
    ensures x == Join(p, fs[p][k].name)
    ensures p == d || p in ScanFrom(fs, d, Directory, i)
    decreases LongerKeys(fs, d), |fs[d]| - i
  {
    var e := fs[d][i];
    var c := Join(d, e.name);
    if !Ignored(e.name) && e.kind == kind && x == c {
      p, k := d, i;
    } else if !Ignored(e.name) && e.kind == Directory && c in fs && x in ScanFrom(fs, c, kind, 0) {
      LongerKeysShrink(fs, d, c);
      p, k := ScanShape(fs, c, kind, 0, x);
      assert c in ScanFrom(fs, d, Directory, i);
      assert ScanFrom(fs, c, Directory, 0) <= ScanFrom(fs, d, Directory, i);
    } else {
      p, k := ScanShape(fs, d, kind, i + 1, x);
    }
  }

  /** Every descendant is a non-ignored entry of the requested kind in a
      readable directory that is `d` itself or a descendant directory. */
  lemma DescendantShape(fs: FileSystem, d: Path, kind: FileKind, x: Path)
    returns (p: Path, k: nat)
    requires x in Descendants(fs, d, kind)
    ensures p in fs && k < |fs[p]| && fs[p][k].kind == kind && !Ignored(fs[p][k].name)
    ensures x == Join(p, fs[p][k].name)
    ensures p == d || p in Descendants(fs, d, Directory)
  {
    p, k := ScanShape(fs, d, kind, 0, x);
  }

  /** With single-segment names, no descendant has an ignored base name. */
  lemma DescendantsNotIgnored(fs: FileSystem, d: Path, kind: FileKind, x: Path)
    requires WellFormed(fs) && x in Descendants(fs, d, kind)
    ensures !Ignored(BaseName(x))
  {
    var p, k := DescendantShape(fs, d, kind, x);
    BaseNameOfJoin(p, fs[p][k].name);
  }
}
