/**
 * The parts of Python's `os.path` (POSIX flavour) that the helpers use on
 * path strings: `basename`, `dirname` and `join`.
 */
module PosixPath {
  import opened Text

  /** Python's `s.rfind(c)` for one character: the last index of `c`, or -1. */
  function LastIndexOf(s: string, c: char): (r: int)
    ensures -1 <= r < |s|
    ensures r >= 0 ==> s[r] == c
    ensures forall j :: r < j < |s| ==> s[j] != c
  {
    if |s| == 0 then -1
    else if s[|s| - 1] == c then |s| - 1
    else LastIndexOf(s[..|s| - 1], c)
  }

  /** `os.path.basename(p)`: what follows the last `/`. */
  function BaseName(p: string): (r: string)
    ensures '/' !in r
    ensures EndsWith(p, r)
  {
    var i := LastIndexOf(p, '/') + 1;
    assert forall j :: 0 <= j < |p[i..]| ==> p[i..][j] == p[i + j];
    p[i..]
  }

  /** `s.rstrip(c)` for one character. */
  function StripTrailing(s: string, c: char): (r: string)
    ensures StartsWith(s, r)
    ensures |r| > 0 ==> r[|r| - 1] != c
    ensures forall j :: |r| <= j < |s| ==> s[j] == c
  {
    if |s| > 0 && s[|s| - 1] == c then StripTrailing(s[..|s| - 1], c) else s
  }

  /** Every character of `s` is `c`. */
  predicate AllChar(s: string, c: char) {
    forall j :: 0 <= j < |s| ==> s[j] == c
  }

  /**
   * `os.path.dirname(p)`: everything up to the last `/`, with the trailing
   * `/`s removed unless that leaves nothing but the root.
   */
  function DirName(p: string): (r: string)
    ensures StartsWith(p, r)
  {
    var head := p[..LastIndexOf(p, '/') + 1];
    if head != "" && !AllChar(head, '/') then StripTrailing(head, '/') else head
  }

  /** `os.path.join(a, b)` */
  function JoinPath(a: string, b: string): string {
    if |b| > 0 && b[0] == '/' then b
    else if a == "" || a[|a| - 1] == '/' then a + b
    else a + "/" + b
  }

  /**
   * `os.path.join(a, b)`: an absolute `b` replaces `a`; otherwise the
   * result is `a` followed by `b`, with exactly one `/` between them when
   * `a` is not empty (the one `a` ends with, or one put in).
   */
  lemma JoinPathParts(a: string, b: string)
    ensures |b| > 0 && b[0] == '/' ==> JoinPath(a, b) == b
    ensures !(|b| > 0 && b[0] == '/') ==>
      var r := JoinPath(a, b);
      StartsWith(r, a) && EndsWith(r, b) &&
      (a == "" ==> r == b) &&
      (a != "" ==> |r| - |b| - 1 >= |a| - 1 && r[|r| - |b| - 1] == '/' && r[..|r| - |b| - 1] == a[..|r| - |b| - 1])
  {
    var r := JoinPath(a, b);
    if !(|b| > 0 && b[0] == '/') && a != "" {
      if a[|a| - 1] == '/' {
        assert r == a + b;
        assert r[..|a| - 1] == a[..|a| - 1];
      } else {
        assert r == a + "/" + b;
        assert r[..|a|] == a;
      }
    }
  }

  /** The last `/` of `a + "/" + b` is the one written between them when `b` has none. */
  lemma {:induction false} LastSlash(a: string, b: string)
    requires '/' !in b
    ensures LastIndexOf(a + "/" + b, '/') == |a|
    decreases |b|
  {
    if b != [] {
      var b' := b[..|b| - 1];
      assert b[|b| - 1] in b;
      assert forall x :: x in b' ==> x in b;
      LastSlash(a, b');
      assert (a + "/" + b)[..|a + "/" + b| - 1] == a + "/" + b';
    }
  }

  /** The base name of `a/b` is `b` when `b` has no `/`. */
  lemma BaseNameOf(a: string, b: string)
    requires '/' !in b
    ensures BaseName(a + "/" + b) == b
  {
    LastSlash(a, b);
    assert (a + "/" + b)[|a| + 1..] == b;
  }

  /** The directory of `a/g/b` is `a/g` when neither `g` nor `b` has a `/` and `g` is not empty. */
  lemma DirNameOf(a: string, g: string, b: string)
    requires '/' !in g && '/' !in b && |g| > 0
    ensures DirName(a + "/" + g + "/" + b) == a + "/" + g
  {
    var s := a + "/" + g + "/" + b;
    assert s == (a + "/" + g) + "/" + b;
    LastSlash(a + "/" + g, b);
    var head := s[..|a + "/" + g| + 1];
    assert head == a + "/" + g + "/";
    var n := |head|;
    assert head[n - 2] == g[|g| - 1] && head[n - 2] != '/';
    assert !AllChar(head, '/');
    assert head[..n - 1] == a + "/" + g;
  }

  /** Joining a name without `/` onto a directory gives a path whose base name is that name. */
  lemma JoinBaseName(a: string, b: string)
    requires '/' !in b
    ensures BaseName(JoinPath(a, b)) == b
  {
    if a == "" {
      assert JoinPath(a, b) == "" + "/" + b || JoinPath(a, b) == b;
      LastIndexOfNone(b);
    } else if a[|a| - 1] == '/' {
      var a0 := a[..|a| - 1];
      assert a == a0 + "/";
      assert JoinPath(a, b) == a0 + "/" + b;
      BaseNameOf(a0, b);
    } else {
      BaseNameOf(a, b);
    }
  }

  lemma LastIndexOfNone(b: string)
    requires '/' !in b
    ensures LastIndexOf(b, '/') == -1
  {
    assert forall j :: 0 <= j < |b| ==> b[j] in b;
  }
}
