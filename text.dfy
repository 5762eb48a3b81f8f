/**
 * The Python string operations the modelled code relies on: `str.find`,
 * `str.split`, `str.join`, `str.replace`, `str.lower` (ASCII letters),
 * `str.startswith`/`endswith`, string ordering, `sorted` over a set of
 * names, and the `*`-only shell pattern used by every shipped glob.
 */
module Text {

  /** `pat` occurs in `s` starting at index `i`. */
  predicate OccursAt(s: string, pat: string, i: int) {
    0 <= i && i + |pat| <= |s| && s[i..i + |pat|] == pat
  }

  /** Python's `pat in s`. */
  predicate Contains(s: string, pat: string) {
    exists i :: 0 <= i <= |s| - |pat| && OccursAt(s, pat, i)
  }

  predicate StartsWith(s: string, prefix: string) {
    |prefix| <= |s| && s[..|prefix|] == prefix
  }

  predicate EndsWith(s: string, suffix: string) {
    |suffix| <= |s| && s[|s| - |suffix|..] == suffix
  }

  /** Index of the first occurrence of `pat` at or after `i`, or -1. */
  function FindFrom(s: string, pat: string, i: nat): (r: int)
    ensures r == -1 || (i <= r && OccursAt(s, pat, r))
    ensures r == -1 ==> forall j :: i <= j ==> !OccursAt(s, pat, j)
    ensures r != -1 ==> forall j :: i <= j < r ==> !OccursAt(s, pat, j)
    decreases |s| + 1 - i
  {
    if i + |pat| > |s| then -1
    else if s[i..i + |pat|] == pat then i
    else FindFrom(s, pat, i + 1)
  }

  /** Python's `s.find(pat)`: the first occurrence, or -1 (0 for an empty `pat`). */
  function Find(s: string, pat: string): (r: int)
    ensures r == -1 || 0 <= r <= |s| - |pat|
    ensures r == -1 <==> !Contains(s, pat)
    ensures r != -1 ==> OccursAt(s, pat, r) && forall j :: 0 <= j < r ==> !OccursAt(s, pat, j)
  {
    FindFrom(s, pat, 0)
  }

  /** Python's `s.split(sep)` for a non-empty separator. */
  function Split(s: string, sep: string): (r: seq<string>)
    requires |sep| > 0
    ensures |r| >= 1
    ensures forall k :: 0 <= k < |r| ==> !Contains(r[k], sep)
    decreases |s|
  {
    var i := Find(s, sep);
    if i < 0 then [s]
    else
      assert !Contains(s[..i], sep) by {
        forall j | OccursAt(s[..i], sep, j) ensures false {
          assert s[..i][j..j + |sep|] == s[j..j + |sep|];
          assert OccursAt(s, sep, j);
        }
      }
      [s[..i]] + Split(s[i + |sep|..], sep)
  }

  /** Python's `sep.join(parts)`. */
  function Join(parts: seq<string>, sep: string): string {
    if |parts| == 0 then ""
    else if |parts| == 1 then parts[0]
    else parts[0] + sep + Join(parts[1..], sep)
  }

  /** Python's `s.replace(target, replacement)` for a non-empty `target`. */
  function ReplaceAll(s: string, target: string, replacement: string): string
    requires |target| > 0
  {
    Join(Split(s, target), replacement)
  }

  /** Python's `s.lower()` on ASCII letters. */
  function Lower(s: string): (r: string)
    ensures |r| == |s|
    ensures forall i :: 0 <= i < |s| ==>
      r[i] == if 'A' <= s[i] <= 'Z' then (s[i] - 'A' + 'a') as char else s[i]
  {
    if s == [] then []
    else [if 'A' <= s[0] <= 'Z' then (s[0] - 'A' + 'a') as char else s[0]] + Lower(s[1..])
  }

  // ---------------------------------------------------------------------
  // find / split / join
  // ---------------------------------------------------------------------

  /** Splitting and joining again with the same separator gives back the string. */
  lemma {:induction false} SplitJoin(s: string, sep: string)
    requires |sep| > 0
    ensures Join(Split(s, sep), sep) == s
    decreases |s|
  {
    var i := Find(s, sep);
    if i >= 0 {
      var rest := s[i + |sep|..];
      var pieces := Split(rest, sep);
      SplitJoin(rest, sep);
      var parts := [s[..i]] + pieces;
      assert Split(s, sep) == parts;
      assert parts[1..] == pieces;
      assert Join(parts, sep) == s[..i] + sep + Join(pieces, sep);
      assert s == s[..i] + s[i..i + |sep|] + rest;
    }
  }

  /** A character none of three strings holds is not in the three put together. */
  lemma AbsentJoined(ch: char, a: string, b: string, c: string)
    requires ch !in a && ch !in b && ch !in c
    ensures ch !in a + b + c
  {
    var s := a + b + c;
    forall i | 0 <= i < |s| ensures s[i] != ch {
      if i < |a| {
        assert s[i] == a[i];
      } else if i < |a| + |b| {
        assert s[i] == b[i - |a|];
      } else {
        assert s[i] == c[i - |a| - |b|];
      }
    }
  }

  /** A string without the separator splits into itself alone. */
  lemma SplitAbsent(s: string, sep: string)
    requires |sep| > 0
    ensures !Contains(s, sep) <==> Split(s, sep) == [s]
  {
  }

  /**
   * When no occurrence of `sep` starts inside `a` (so none lies in `a`
   * followed by all but the last character of `sep`), the first piece of
   * `a + sep + b` is `a` and the rest is the split of `b`.
   */
  lemma SplitAfterFirst(a: string, sep: string, b: string)
    requires |sep| > 0
    requires !Contains(a + sep[..|sep| - 1], sep)
    ensures Split(a + sep + b, sep) == [a] + Split(b, sep)
  {
    var s := a + sep + b;
    var t := a + sep[..|sep| - 1];
    assert OccursAt(s, sep, |a|) by { assert s[|a|..|a| + |sep|] == sep; }
    forall j | 0 <= j < |a| ensures !OccursAt(s, sep, j) {
      if OccursAt(s, sep, j) {
        var u, v := s[j..j + |sep|], t[j..j + |sep|];
        forall k | 0 <= k < |sep| ensures u[k] == v[k] {
          if j + k < |a| {
            assert u[k] == a[j + k] == v[k];
          } else {
            assert u[k] == sep[j + k - |a|] == v[k];
          }
        }
        assert u == v;
        assert OccursAt(t, sep, j);
      }
    }
    assert Find(s, sep) == |a|;
    assert s[..|a|] == a;
    assert s[|a| + |sep|..] == b;
  }

  /**
   * When the first character of `sep` does not occur in `a`, the first
   * piece of `a + sep + b` is `a` and the rest is the split of `b`.
   */
  lemma SplitAfterPrefix(a: string, sep: string, b: string)
    requires |sep| > 0
    requires sep[0] !in a
    ensures Split(a + sep + b, sep) == [a] + Split(b, sep)
  {
    var t := a + sep[..|sep| - 1];
    forall j | 0 <= j <= |t| - |sep| ensures !OccursAt(t, sep, j) {
      assert j < |a|;
      assert t[j..j + |sep|][0] == a[j];
      assert a[j] in a;
    }
    SplitAfterFirst(a, sep, b);
  }

  /** A string whose characters avoid `sep[0]` splits into itself. */
  lemma SplitNoFirstChar(s: string, sep: string)
    requires |sep| > 0
    requires sep[0] !in s
    ensures Split(s, sep) == [s]
  {
    forall j | 0 <= j && j + |sep| <= |s| ensures !OccursAt(s, sep, j) {
      assert s[j..j + |sep|][0] == s[j];
      assert s[j] in s;
    }
  }

  /** Replacing a single character by a single character works position by position. */
  lemma {:induction false} ReplaceCharAt(s: string, c: char, d: char)
    ensures |ReplaceAll(s, [c], [d])| == |s|
    ensures forall i :: 0 <= i < |s| ==>
      ReplaceAll(s, [c], [d])[i] == if s[i] == c then d else s[i]
    decreases |s|
  {
    var i := Find(s, [c]);
    if i >= 0 {
      var rest := s[i + 1..];
      ReplaceCharAt(rest, c, d);
      ReplaceFirst(s, c, d, i);
      var r := ReplaceAll(s, [c], [d]);
      var rr := ReplaceAll(rest, [c], [d]);
      forall j | 0 <= j < |s| ensures r[j] == if s[j] == c then d else s[j] {
        if j > i {
          assert r[j] == rr[j - i - 1] && s[j] == rest[j - i - 1];
        }
      }
    } else {
      forall j | 0 <= j < |s| ensures s[j] != c {
        assert !OccursAt(s, [c], j);
      }
    }
  }

  /**
   * With the first `c` of `s` at `i`, the characters before it are kept,
   * it becomes `d`, and the rest is replaced in turn.
   */
  lemma ReplaceFirst(s: string, c: char, d: char, i: int)
    requires i == Find(s, [c]) && i >= 0
    ensures s[i] == c && forall j :: 0 <= j < i ==> s[j] != c
    ensures ReplaceAll(s, [c], [d]) == s[..i] + [d] + ReplaceAll(s[i + 1..], [c], [d])
  {
    assert OccursAt(s, [c], i);
    forall j | 0 <= j < i ensures s[j] != c {
      assert !OccursAt(s, [c], j);
    }
    var parts := Split(s[i + 1..], [c]);
    assert Split(s, [c]) == [s[..i]] + parts;
    assert ([s[..i]] + parts)[1..] == parts;
  }

  // ---------------------------------------------------------------------
  // ordering of names, as Python compares strings
  // ---------------------------------------------------------------------

  /** Python's `a < b` on strings: lexicographic by code point. */
  predicate LexLess(a: string, b: string) {
    if a == [] then b != []
    else b != [] && (a[0] < b[0] || (a[0] == b[0] && LexLess(a[1..], b[1..])))
  }

  lemma {:induction false} LexIrreflexive(a: string)
    ensures !LexLess(a, a)
  {
    if a != [] { LexIrreflexive(a[1..]); }
  }

  lemma {:induction false} LexAsymmetric(a: string, b: string)
    ensures !(LexLess(a, b) && LexLess(b, a))
  {
    if a != [] && b != [] && a[0] == b[0] { LexAsymmetric(a[1..], b[1..]); }
  }

  lemma {:induction false} LexTransitive(a: string, b: string, c: string)
    requires LexLess(a, b) && LexLess(b, c)
    ensures LexLess(a, c)
  {
    if a != [] && a[0] == b[0] && b[0] == c[0] { LexTransitive(a[1..], b[1..], c[1..]); }
  }

  lemma {:induction false} LexTotal(a: string, b: string)
    ensures a == b || LexLess(a, b) || LexLess(b, a)
  {
    if a != [] && b != [] && a[0] == b[0] {
      LexTotal(a[1..], b[1..]);
      if a[1..] == b[1..] { assert a == [a[0]] + a[1..] && b == [b[0]] + b[1..]; }
    }
  }

  /** `m` is the smallest element of `s`. */
  predicate IsLeast(m: string, s: set<string>) {
    m in s && forall y :: y in s && y != m ==> LexLess(m, y)
  }

  lemma {:induction false} LeastExists(s: set<string>)
    requires s != {}
    ensures exists m :: IsLeast(m, s)
    decreases |s|
  {
    var x :| x in s;
    if s == {x} {
      assert IsLeast(x, s);
    } else {
      LeastExists(s - {x});
      var m :| IsLeast(m, s - {x});
      LexTotal(m, x);
      if LexLess(m, x) {
        assert IsLeast(m, s);
      } else {
        forall y | y in s && y != x ensures LexLess(x, y) {
          if y != m { LexTransitive(x, m, y); }
        }
        assert IsLeast(x, s);
      }
    }
  }

  predicate StrictlyIncreasing(r: seq<string>) {
    forall i, j :: 0 <= i < j < |r| ==> LexLess(r[i], r[j])
  }

  /** Python's `sorted(names)` over a set of distinct names. */
  function SortedSet(s: set<string>): (r: seq<string>)
    ensures StrictlyIncreasing(r)
    ensures forall x :: x in r <==> x in s
    ensures |r| == |s|
    decreases |s|
  {
    if s == {} then []
    else
      LeastExists(s);
      assert forall m, m' :: IsLeast(m, s) && IsLeast(m', s) ==> m == m' by {
        forall m, m' | IsLeast(m, s) && IsLeast(m', s) ensures m == m' {
          LexAsymmetric(m, m');
        }
      }
      var m :| IsLeast(m, s);
      var rest := SortedSet(s - {m});
      assert forall k :: 0 <= k < |rest| ==> LexLess(m, rest[k]) by {
        forall k | 0 <= k < |rest| ensures LexLess(m, rest[k]) {
          assert rest[k] in s - {m};
        }
      }
      [m] + rest
  }

  /** A strictly increasing sequence is determined by its elements. */
  lemma {:induction false} SortedUnique(a: seq<string>, b: seq<string>)
    requires StrictlyIncreasing(a) && StrictlyIncreasing(b)
    requires forall x :: x in a <==> x in b
    ensures a == b
    decreases |a|
  {
    if a != [] || b != [] {
      assert a != [] ==> a[0] in b;
      assert b != [] ==> b[0] in a;
      if a[0] != b[0] {
        assert b[0] in a;
        assert a[0] in b;
        var i :| 0 <= i < |a| && a[i] == b[0];
        var j :| 0 <= j < |b| && b[j] == a[0];
        assert LexLess(a[0], b[0]) by { if i == 0 { } }
        assert LexLess(b[0], a[0]) by { if j == 0 { } }
        LexAsymmetric(a[0], b[0]);
      }
      forall x ensures x in a[1..] <==> x in b[1..] {
        if x in a[1..] {
          var i :| 0 <= i < |a| - 1 && a[1..][i] == x;
          assert LexLess(a[0], a[i + 1]);
          LexIrreflexive(x);
          assert x in b;
          var k :| 0 <= k < |b| && b[k] == x;
          assert k != 0;
          assert b[1..][k - 1] == x;
        }
        if x in b[1..] {
          var j :| 0 <= j < |b| - 1 && b[1..][j] == x;
          assert LexLess(b[0], b[j + 1]);
          LexIrreflexive(x);
          assert x in a;
          var k :| 0 <= k < |a| && a[k] == x;
          assert k != 0;
          assert a[1..][k - 1] == x;
        }
      }
      SortedUnique(a[1..], b[1..]);
      assert a == [a[0]] + a[1..] && b == [b[0]] + b[1..];
    }
  }

  // ---------------------------------------------------------------------
  // shell patterns made of literal characters and `*`
  // ---------------------------------------------------------------------

  /** `name` matches the glob `pat`, where `*` stands for any run of characters. */
  predicate Match(pat: string, name: string)
    decreases |pat| + |name|
  {
    if pat == [] then name == []
    else if pat[0] == '*' then Match(pat[1..], name) || (name != [] && Match(pat, name[1..]))
    else name != [] && name[0] == pat[0] && Match(pat[1..], name[1..])
  }

  lemma {:induction false} MatchStarAll(name: string)
    ensures Match("*", name)
    decreases |name|
  {
    if name != [] { MatchStarAll(name[1..]); }
  }

  /** `lit*` matches exactly the names that start with `lit`. */
  lemma {:induction false} MatchPrefixStar(lit: string, name: string)
    requires '*' !in lit
    ensures Match(lit + "*", name) <==> StartsWith(name, lit)
    decreases |lit|
  {
    if lit == [] {
      assert lit + "*" == "*";
      MatchStarAll(name);
    } else {
      assert (lit + "*")[1..] == lit[1..] + "*";
      if name != [] { MatchPrefixStar(lit[1..], name[1..]); }
    }
  }

  /** A leading `*` lets the rest of the pattern match any suffix. */
  lemma {:induction false} MatchLeadingStar(p: string, name: string)
    ensures Match("*" + p, name) <==> exists k :: 0 <= k <= |name| && Match(p, name[k..])
    decreases |name|
  {
    assert ("*" + p)[1..] == p;
    assert name[0..] == name;
    if name != [] {
      MatchLeadingStar(p, name[1..]);
      if exists k :: 0 <= k <= |name| - 1 && Match(p, name[1..][k..]) {
        var k :| 0 <= k <= |name| - 1 && Match(p, name[1..][k..]);
        assert name[1..][k..] == name[k + 1..];
      }
      if exists k :: 0 <= k <= |name| && Match(p, name[k..]) {
        var k :| 0 <= k <= |name| && Match(p, name[k..]);
        if k > 0 { assert name[1..][k - 1..] == name[k..]; }
      }
    } else {
      if exists k :: 0 <= k <= |name| && Match(p, name[k..]) {
        var k :| 0 <= k <= |name| && Match(p, name[k..]);
        assert name[k..] == name;
      }
    }
  }

  /** `*lit*` matches exactly the names that contain `lit`. */
  lemma MatchInfix(lit: string, name: string)
    requires '*' !in lit
    ensures Match("*" + lit + "*", name) <==> Contains(name, lit)
  {
    assert "*" + lit + "*" == "*" + (lit + "*");
    MatchLeadingStar(lit + "*", name);
    if Contains(name, lit) {
      var i :| 0 <= i <= |name| - |lit| && OccursAt(name, lit, i);
      MatchPrefixStar(lit, name[i..]);
    }
    if exists k :: 0 <= k <= |name| && Match(lit + "*", name[k..]) {
      var k :| 0 <= k <= |name| && Match(lit + "*", name[k..]);
      MatchPrefixStar(lit, name[k..]);
      assert OccursAt(name, lit, k);
    }
  }
}
