/**
 * The directory tree the crawler works on, held in memory: a map from
 * each existing path (its components below the file-system root) to the
 * kind of entry found there.  `Path.glob`, `Path.is_dir` and
 * `Path.rename` of the crawler are the functions and the method below.
 */
module FileSystem {
  import opened Text

  type Name = string

  /** Components of an absolute path; `[]` is the root `/`. */
  type Path = seq<Name>

  datatype Kind = Dir | File

  type Entries = map<Path, Kind>

  /** `Path.is_dir()` */
  predicate IsDir(fs: Entries, p: Path) {
    p in fs && fs[p] == Dir
  }

  /** `Path.name` of a non-root path. */
  function NameOf(p: Path): Name
    requires |p| > 0
  {
    p[|p| - 1]
  }

  /** `Path.with_name(n)`: the sibling of `p` called `n`. */
  function WithName(p: Path, n: Name): (r: Path)
    requires |p| > 0
    ensures |r| == |p| && r[..|p| - 1] == p[..|p| - 1] && NameOf(r) == n
  {
    p[..|p| - 1] + [n]
  }

  /** `str(p)`: the path written out with `/` separators. */
  function PathString(p: Path): string {
    "/" + Join(p, "/")
  }

  /** `p` is `prefix` itself or lies below it. */
  predicate Below(p: Path, prefix: Path) {
    |prefix| <= |p| && p[..|prefix|] == prefix
  }

  /** `fs1` and `fs2` hold the same entry at `q`, or both hold none. */
  predicate Agree(fs1: Entries, fs2: Entries, q: Path) {
    (q in fs1 <==> q in fs2) && (q in fs1 ==> fs1[q] == fs2[q])
  }

  /** `fs1` and `fs2` hold the same entries at `d` and everywhere below it. */
  ghost predicate SameBelow(fs1: Entries, fs2: Entries, d: Path) {
    forall q :: Below(q, d) ==> Agree(fs1, fs2, q)
  }

  /** Two different paths of the same length have nothing below them in common. */
  lemma BelowSiblings(q: Path, x: Path, y: Path)
    requires |x| == |y| && Below(q, x) && Below(q, y)
    ensures x == y
  {
  }

  /** Something already exists at `p` or below it. */
  predicate Occupied(fs: Entries, p: Path) {
    exists q :: q in fs && Below(q, p)
  }

  /** Names of the entries directly inside `base` that match `pattern`. */
  function GlobNames(fs: Entries, base: Path, pattern: string): set<Name> {
    set p | p in fs && ChildMatch(fs, base, pattern, p) :: NameOf(p)
  }

  /** `p` is an entry directly inside `base` whose name matches `pattern`. */
  predicate ChildMatch(fs: Entries, base: Path, pattern: string, p: Path)
    ensures ChildMatch(fs, base, pattern, p) ==> |p| == |base| + 1
  {
    p in fs && |p| == |base| + 1 && p[..|base|] == base && Match(pattern, p[|base|])
  }

  /**
   * `sorted(base.glob(pattern))` for a pattern of one path component:
   * the matching entries directly inside `base`, files and directories
   * alike, in ascending order of name.
   */
  function Glob(fs: Entries, base: Path, pattern: string): (r: seq<Path>)
    ensures forall i :: 0 <= i < |r| ==> |r[i]| == |base| + 1 && r[i][..|base|] == base
    ensures forall i :: 0 <= i < |r| ==> ChildMatch(fs, base, pattern, r[i])
    ensures forall p :: ChildMatch(fs, base, pattern, p) ==> p in r
    ensures forall i, j :: 0 <= i < j < |r| ==> LexLess(NameOf(r[i]), NameOf(r[j]))
  {
    var names := SortedSet(GlobNames(fs, base, pattern));
    GlobMembers(fs, base, pattern, names);
    GlobComplete(fs, base, pattern, names);
    ChildPaths(base, names)
  }

  /** The paths `base/n` for each name `n` of `names`, in order. */
  function ChildPaths(base: Path, names: seq<Name>): (r: seq<Path>)
    ensures |r| == |names|
    ensures forall i :: 0 <= i < |r| ==> |r[i]| == |base| + 1 && r[i][..|base|] == base && NameOf(r[i]) == names[i]
    ensures StrictlyIncreasing(names) ==> forall i, j :: 0 <= i < j < |r| ==> LexLess(NameOf(r[i]), NameOf(r[j]))
  {
    if names == [] then []
    else [base + [names[0]]] + ChildPaths(base, names[1..])
  }

  lemma GlobMembers(fs: Entries, base: Path, pattern: string, names: seq<Name>)
    requires forall x :: x in names <==> x in GlobNames(fs, base, pattern)
    ensures forall i :: 0 <= i < |names| ==> ChildMatch(fs, base, pattern, ChildPaths(base, names)[i])
  {
    var r := ChildPaths(base, names);
    forall i | 0 <= i < |names| ensures ChildMatch(fs, base, pattern, r[i]) {
      ChildOfName(fs, base, pattern, names[i], r[i]);
    }
  }

  lemma ChildOfName(fs: Entries, base: Path, pattern: string, n: Name, q: Path)
    requires n in GlobNames(fs, base, pattern)
    requires |q| == |base| + 1 && q[..|base|] == base && NameOf(q) == n
    ensures ChildMatch(fs, base, pattern, q)
  {
    var p :| p in fs && ChildMatch(fs, base, pattern, p) && NameOf(p) == n;
    assert |p| == |base| + 1 && p[..|base|] == base && Match(pattern, p[|base|]);
    assert p == base + [n];
    assert q == base + [n];
  }

  lemma GlobComplete(fs: Entries, base: Path, pattern: string, names: seq<Name>)
    requires forall x :: x in names <==> x in GlobNames(fs, base, pattern)
    ensures forall p :: ChildMatch(fs, base, pattern, p) ==> p in ChildPaths(base, names)
  {
    var r := ChildPaths(base, names);
    forall p | ChildMatch(fs, base, pattern, p) ensures p in r {
      assert NameOf(p) in GlobNames(fs, base, pattern);
      var i :| 0 <= i < |names| && names[i] == NameOf(p);
      assert p == p[..|base|] + [NameOf(p)];
      assert r[i] == r[i][..|base|] + [NameOf(r[i])];
    }
  }

  /**
   * `src.rename(dst)`: the entry at `src` and everything below it move
   * to `dst`; every other entry stays where it was.
   */
  function Renamed(fs: Entries, src: Path, dst: Path): (r: Entries)
    requires !Occupied(fs, dst)
    ensures forall q :: q in fs && !Below(q, src) ==> q in r && r[q] == fs[q]
    ensures forall q :: q in fs && Below(q, src) ==> dst + q[|src|..] in r && r[dst + q[|src|..]] == fs[q]
    ensures forall q :: q in r ==> (q in fs && !Below(q, src)) || Below(q, dst)
    ensures forall q :: q in r && Below(q, dst) ==> exists q' :: q' in fs && Below(q', src) && q == dst + q'[|src|..]
  {
    var kept := map q | q in fs && !Below(q, src) :: fs[q];
    MoveInjective(src, dst);
    var moved := map q | q in fs && Below(q, src) :: dst + q[|src|..] := fs[q];
    MovedBelow(fs, src, dst, moved);
    kept + moved
  }

  /** Moving from `src` to `dst` sends different paths to different places. */
  lemma MoveInjective(src: Path, dst: Path)
    ensures forall q, q' :: Below(q, src) && Below(q', src) && dst + q[|src|..] == dst + q'[|src|..] ==> q == q'
  {
    forall q, q' | Below(q, src) && Below(q', src) && dst + q[|src|..] == dst + q'[|src|..] ensures q == q' {
      assert q[|src|..] == (dst + q[|src|..])[|dst|..];
      assert q'[|src|..] == (dst + q'[|src|..])[|dst|..];
      assert q == q[..|src|] + q[|src|..];
      assert q' == q'[..|src|] + q'[|src|..];
    }
  }

  /** Everything moved lands at `dst` or below it. */
  lemma MovedBelow(fs: Entries, src: Path, dst: Path, moved: Entries)
    requires forall q :: q in moved ==> exists q' :: q' in fs && Below(q', src) && q == dst + q'[|src|..]
    ensures forall q :: q in moved ==> Below(q, dst)
  {
    forall q | q in moved ensures Below(q, dst) {
      var q' :| q' in fs && Below(q', src) && q == dst + q'[|src|..];
      assert q[..|dst|] == dst;
    }
  }

  /** The disk the crawler renames directories on. */
  class Disk {
    var entries: Entries

    constructor (entries: Entries)
      ensures this.entries == entries
    {
      this.entries := entries;
    }

    /**
     * `src.rename(dst)` for an existing directory moved to a name nothing
     * yet occupies.  What the operating system does when `dst` already
     * exists is left open, so that case is excluded.
     */
    method Rename(src: Path, dst: Path)
      requires IsDir(entries, src)
      requires !Occupied(entries, dst)
      modifies this
      ensures entries == Renamed(old(entries), src, dst)
    {
      entries := Renamed(entries, src, dst);
    }
  }
}
