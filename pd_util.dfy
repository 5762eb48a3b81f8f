/**
 * The string rules of the DataFrame helpers: the project name taken from
 * the merged-analysis file's path, the cache file name built from it, the
 * condition normalisation `set_cond`, and the phase and session numbers
 * read out of a day string such as `day001_phase2-1S3`.
 */
module PdUtil {
  import opened Wrappers
  import opened Text
  import opened PosixPath

  /** The only file name `get_prj_name` accepts. */
  const MergedFile := "df_individual_analyzed_merged.h5"

  /**
   * `get_prj_name(fname)`: the grandparent directory's name, `_`, the
   * parent directory's name; `ValueError` unless the file is the merged
   * analysis file.
   */
  function GetPrjName(fname: string): (r: Result<string>)
    ensures r.Raised? <==> BaseName(fname) != MergedFile
    ensures r.Raised? ==> r.exc == ValueError
    ensures r.Ok? ==> '/' !in r.value
  {
    if BaseName(fname) == MergedFile then
      Ok(BaseName(DirName(DirName(fname))) + "_" + BaseName(DirName(fname)))
    else
      Raised(ValueError)
  }

  /** `…/projA/paradigmB/df_individual_analyzed_merged.h5` names the project `projA_paradigmB`. */
  lemma PrjNameOfLayout(root: string, prj: string, paradigm: string)
    requires '/' !in prj && '/' !in paradigm && |prj| > 0 && |paradigm| > 0
    ensures GetPrjName(root + "/" + prj + "/" + paradigm + "/" + MergedFile) == Ok(prj + "_" + paradigm)
  {
    assert '/' !in MergedFile;
    var dir := root + "/" + prj + "/" + paradigm;
    BaseNameOf(dir, MergedFile);
    DirNameOf(root + "/" + prj, paradigm, MergedFile);
    BaseNameOf(root + "/" + prj, paradigm);
    DirNameOf(root, prj, paradigm);
    BaseNameOf(root, prj);
  }

  /**
   * The cache file of `read_and_cache`: `_cache_<project>.h5` inside
   * `cache_path`; it raises whatever `get_prj_name` raises.
   */
  function CacheFileName(cachePath: string, fname: string): (r: Result<string>)
    ensures r.Raised? <==> GetPrjName(fname).Raised?
    ensures r.Raised? ==> r.exc == ValueError
    ensures r.Ok? ==> BaseName(r.value) == "_cache_" + GetPrjName(fname).value + ".h5"
  {
    match GetPrjName(fname)
      case Raised(e) => Raised(e)
      case Ok(name) =>
        CacheLeaf(cachePath, name);
        Ok(JoinPath(cachePath, "_cache_" + name + ".h5"))
  }

  /**
   * The cache file lies directly in `cache_path`: it is the path, a `/`
   * unless the path is empty or already ends in one, then
   * `_cache_<project>.h5`.
   */
  lemma CacheFileInDir(cachePath: string, fname: string, name: string)
    requires GetPrjName(fname) == Ok(name)
    ensures var leaf := "_cache_" + name + ".h5";
      (cachePath == "" ==> CacheFileName(cachePath, fname) == Ok(leaf)) &&
      (cachePath != "" && cachePath[|cachePath| - 1] == '/' ==> CacheFileName(cachePath, fname) == Ok(cachePath + leaf)) &&
      (cachePath != "" && cachePath[|cachePath| - 1] != '/' ==> CacheFileName(cachePath, fname) == Ok(cachePath + "/" + leaf))
  {
    var leaf := "_cache_" + name + ".h5";
    assert CacheFileName(cachePath, fname) == Ok(JoinPath(cachePath, leaf));
    assert leaf[0] == '_';
  }

  /** The cache file's own name has no `/`, so it is the joined path's base name. */
  lemma CacheLeaf(cachePath: string, name: string)
    requires '/' !in name
    ensures BaseName(JoinPath(cachePath, "_cache_" + name + ".h5")) == "_cache_" + name + ".h5"
  {
    assert "_cache_" == ['_', 'c', 'a', 'c', 'h', 'e', '_'];
    assert ".h5" == ['.', 'h', '5'];
    AbsentJoined('/', "_cache_", name, ".h5");
    JoinBaseName(cachePath, "_cache_" + name + ".h5");
  }

  /**
   * What `set_cond(x)` returns: the first key, in order, that occurs in
   * `x` first at a position after the start; `x` itself when none does.
   */
  function CondOf(keys: seq<string>, x: string): string {
    if keys == [] then x
    else if Find(x, keys[0]) > 0 then keys[0]
    else CondOf(keys[1..], x)
  }

  /**
   * `CondOf` picks the key at `i` exactly when it is the first key that
   * `x` holds after its first character, and leaves `x` alone when there
   * is none.
   */
  lemma {:induction false} CondOfFirst(keys: seq<string>, x: string)
    ensures (forall i :: 0 <= i < |keys| ==> Find(x, keys[i]) <= 0) ==> CondOf(keys, x) == x
    ensures forall i :: (0 <= i < |keys| && Find(x, keys[i]) > 0 &&
      forall j :: 0 <= j < i ==> Find(x, keys[j]) <= 0) ==> CondOf(keys, x) == keys[i]
  {
    if forall i :: 0 <= i < |keys| ==> Find(x, keys[i]) <= 0 {
      CondOfNone(keys, x);
    }
    forall i | 0 <= i < |keys| && Find(x, keys[i]) > 0 && (forall j :: 0 <= j < i ==> Find(x, keys[j]) <= 0)
      ensures CondOf(keys, x) == keys[i]
    {
      CondOfPick(keys, x, i);
    }
  }

  /** With no key found past the start, `x` is returned. */
  lemma {:induction false} CondOfNone(keys: seq<string>, x: string)
    requires forall i :: 0 <= i < |keys| ==> Find(x, keys[i]) <= 0
    ensures CondOf(keys, x) == x
  {
    if keys != [] {
      assert Find(x, keys[0]) <= 0;
      assert forall i :: 0 <= i < |keys[1..]| ==> keys[1..][i] == keys[i + 1];
      CondOfNone(keys[1..], x);
    }
  }

  /** The first key found past the start is returned. */
  lemma {:induction false} CondOfPick(keys: seq<string>, x: string, i: nat)
    requires i < |keys| && Find(x, keys[i]) > 0
    requires forall j :: 0 <= j < i ==> Find(x, keys[j]) <= 0
    ensures CondOf(keys, x) == keys[i]
    decreases i
  {
    if i > 0 {
      assert Find(x, keys[0]) <= 0;
      assert keys[1..][i - 1] == keys[i];
      assert forall j :: 0 <= j < i - 1 ==> keys[1..][j] == keys[j + 1];
      CondOfPick(keys[1..], x, i - 1);
    }
  }

  /** A key that `x` starts with is not taken: `find` gives 0 there. */
  lemma CondPrefixSkipped(t: string, x: string)
    requires StartsWith(x, t)
    ensures CondOf([t], x) == x
  {
    assert OccursAt(x, t, 0);
  }

  /** `set_cond(x)` over the keys of `cond_map`, in their order. */
  method SetCond(keys: seq<string>, x: string) returns (r: string)
    ensures r == CondOf(keys, x)
  {
    for i := 0 to |keys|
      invariant CondOf(keys[i..], x) == CondOf(keys, x)
    {
      assert keys[i..][1..] == keys[i + 1..];
      if Find(x, keys[i]) > 0 {
        return keys[i];
      }
    }
    return x;
  }

  // ---------------------------------------------------------------------
  // int(...) on decimal strings
  // ---------------------------------------------------------------------

  predicate AllDigits(s: string) {
    forall i :: 0 <= i < |s| ==> '0' <= s[i] <= '9'
  }

  /** The number a string of decimal digits spells. */
  function DigitsValue(s: string): nat
    requires AllDigits(s)
  {
    if s == [] then 0 else DigitsValue(s[..|s| - 1]) * 10 + (s[|s| - 1] - '0') as int
  }

  /**
   * Python's `int(s)` on a decimal literal: an optional sign and at least
   * one digit; `ValueError` for anything else.
   */
  function ParseInt(s: string): (r: Result<int>)
    ensures r.Raised? ==> r.exc == ValueError
    ensures s == "" ==> r.Raised?
  {
    if |s| > 1 && (s[0] == '+' || s[0] == '-') && AllDigits(s[1..]) then
      Ok(if s[0] == '-' then 0 - DigitsValue(s[1..]) else DigitsValue(s[1..]))
    else if |s| > 0 && AllDigits(s) then Ok(DigitsValue(s))
    else Raised(ValueError)
  }

  /** `str(n)` for a natural number. */
  function DecimalString(n: nat): (r: string)
    ensures |r| > 0 && AllDigits(r)
  {
    if n < 10 then ['0' + n as char]
    else DecimalString(n / 10) + ['0' + (n % 10) as char]
  }

  /** The digits `str(n)` writes spell `n` again. */
  lemma {:induction false} DecimalValue(n: nat)
    ensures DigitsValue(DecimalString(n)) == n
  {
    if n >= 10 {
      DecimalValue(n / 10);
      var s := DecimalString(n);
      assert s[..|s| - 1] == DecimalString(n / 10);
    }
  }

  /** `int(str(n)) == n` and `int("-" + str(n)) == -n`. */
  lemma ParseDecimal(n: nat)
    ensures ParseInt(DecimalString(n)) == Ok(n)
    ensures ParseInt("-" + DecimalString(n)) == Ok(0 - n)
  {
    DecimalValue(n);
    assert ("-" + DecimalString(n))[1..] == DecimalString(n);
  }

  // ---------------------------------------------------------------------
  // phase and session of a day string
  // ---------------------------------------------------------------------

  /**
   * `x.split("phase")[1].split("S")[0]`: `IndexError` when `x` has no
   * `phase`; otherwise a string with no `S`.
   */
  function PhaseString(day: string): (r: Result<string>)
    ensures r.Raised? <==> !Contains(day, "phase")
    ensures r.Raised? ==> r.exc == IndexError
    ensures r.Ok? ==> !Contains(r.value, "S")
  {
    var parts := Split(day, "phase");
    SplitCount(day, "phase");
    if |parts| < 2 then Raised(IndexError) else Ok(Split(parts[1], "S")[0])
  }

  /** A string holding the separator splits into at least two pieces. */
  lemma SplitCount(s: string, sep: string)
    requires |sep| > 0
    ensures |Split(s, sep)| < 2 <==> !Contains(s, sep)
  {
    SplitAbsent(s, sep);
  }

  /**
   * The phase column: `int` of the phase string before its first `-`,
   * plus `int` of the part between its first and second `-` (0 when it has
   * no `-`).
   */
  function Phase(day: string): (r: Result<int>)
    ensures !Contains(day, "phase") ==> r == Raised(IndexError)
  {
    match PhaseString(day)
      case Raised(e) => Raised(e)
      case Ok(ps) =>
        var pieces := Split(ps, "-");
        match ParseInt(pieces[0])
          case Raised(e) => Raised(e)
          case Ok(main) =>
            if |pieces| == 1 then Ok(main)
            else
              match ParseInt(pieces[1])
                case Raised(e) => Raised(e)
                case Ok(sub) => Ok(main + sub)
  }

  /**
   * The session column: `int` of the text between the first and second
   * `S` after the first `phase`.
   */
  function Session(day: string): (r: Result<int>)
    ensures !Contains(day, "phase") ==> r == Raised(IndexError)
  {
    var parts := Split(day, "phase");
    SplitCount(day, "phase");
    if |parts| < 2 then Raised(IndexError)
    else
      var pieces := Split(parts[1], "S");
      if |pieces| < 2 then Raised(IndexError) else ParseInt(pieces[1])
  }

  /** Digits are none of `p`, `S`, `-`. */
  lemma DigitsAvoid(s: string)
    requires AllDigits(s)
    ensures 'p' !in s && 'S' !in s && '-' !in s
  {
    forall c | c in s ensures '0' <= c <= '9' {
      var i :| 0 <= i < |s| && s[i] == c;
    }
  }

  /** `a + sep + b` splits into `a` and `b` when neither holds the separator's first character. */
  lemma SplitTwo(a: string, sep: string, b: string)
    requires |sep| > 0 && sep[0] !in a && sep[0] !in b
    ensures Split(a + sep + b, sep) == [a, b]
  {
    SplitNoFirstChar(b, sep);
    SplitAfterPrefix(a, sep, b);
  }

  /**
   * The columns read off a day string whose second piece on `phase` is
   * `rest`, and whose `rest` has `ps` and `session` as its first two
   * pieces on `S`; further pieces are ignored, as `[1]` ignores them.
   */
  lemma DayParts(day: string, rest: string, ps: string, session: string)
    requires |Split(day, "phase")| >= 2 && Split(day, "phase")[1] == rest
    requires |Split(rest, "S")| >= 2 && Split(rest, "S")[0] == ps && Split(rest, "S")[1] == session
    ensures PhaseString(day) == Ok(ps)
    ensures Session(day) == ParseInt(session)
    ensures |Split(ps, "-")| == 1 ==> Phase(day) == ParseInt(Split(ps, "-")[0])
  {
    SplitCount(day, "phase");
  }

  /**
   * The phase of a day string whose phase string has `main` and `sub` as
   * its first two pieces on `-` is their sum.
   */
  lemma SubPhaseSum(day: string, ps: string, main: string, sub: string, x: int, y: int)
    requires PhaseString(day) == Ok(ps)
    requires |Split(ps, "-")| >= 2 && Split(ps, "-")[0] == main && Split(ps, "-")[1] == sub
    requires ParseInt(main) == Ok(x) && ParseInt(sub) == Ok(y)
    ensures Phase(day) == Ok(x + y)
  {
  }

  /**
   * A day string `<prefix>phase<a>-<b>S<c>`, whose written `phase` is
   * the first one,
   * has phase string `<a>-<b>`, phase `a + b` and session `c`.
   */
  lemma DayWithSubPhase(prefix: string, a: nat, b: nat, c: nat)
    requires !Contains(prefix + "phas", "phase")
    ensures var day := prefix + "phase" + (DecimalString(a) + "-" + DecimalString(b) + "S" + DecimalString(c));
      PhaseString(day) == Ok(DecimalString(a) + "-" + DecimalString(b)) &&
      Phase(day) == Ok(a + b) && Session(day) == Ok(c)
  {
    var A, B, C := DecimalString(a), DecimalString(b), DecimalString(c);
    SubPhaseSplits(prefix, A, B, C);
    ParseDecimal(a); ParseDecimal(b); ParseDecimal(c);
    var day := prefix + "phase" + (A + "-" + B + "S" + C);
    DayParts(day, A + "-" + B + "S" + C, A + "-" + B, C);
    SubPhaseSum(day, A + "-" + B, A, B, a, b);
  }

  /** How `<prefix>phase<A>-<B>S<C>` splits on `phase`, `S` and `-` when `A`, `B`, `C` are digits. */
  lemma SubPhaseSplits(prefix: string, A: string, B: string, C: string)
    requires !Contains(prefix + "phas", "phase") && AllDigits(A) && AllDigits(B) && AllDigits(C)
    ensures Split(prefix + "phase" + (A + "-" + B + "S" + C), "phase") == [prefix, A + "-" + B + "S" + C]
    ensures Split(A + "-" + B + "S" + C, "S") == [A + "-" + B, C]
    ensures Split(A + "-" + B, "-") == [A, B]
  {
    DigitsAvoid(A); DigitsAvoid(B); DigitsAvoid(C);
    var ab := A + "-" + B;
    var rest := ab + "S" + C;
    AbsentJoined('S', A, "-", B);
    AbsentJoined('p', ab, "S", C);
    assert "phase"[..|"phase"| - 1] == "phas";
    SplitAfterFirst(prefix, "phase", rest);
    SplitNoFirstChar(rest, "phase");
    SplitTwo(ab, "S", C);
    SplitTwo(A, "-", B);
  }

  /**
   * Without a `-`, `<prefix>phase<a>S<c>`, whose written `phase` is the
   * first one, has phase `a` and session `c`.
   */
  lemma DayWithoutSubPhase(prefix: string, a: nat, c: nat)
    requires !Contains(prefix + "phas", "phase")
    ensures var day := prefix + "phase" + (DecimalString(a) + "S" + DecimalString(c));
      PhaseString(day) == Ok(DecimalString(a)) && Phase(day) == Ok(a) && Session(day) == Ok(c)
  {
    var A, C := DecimalString(a), DecimalString(c);
    DigitsAvoid(A); DigitsAvoid(C);
    var rest := A + "S" + C;
    AbsentJoined('p', A, "S", C);
    assert "phase"[..|"phase"| - 1] == "phas";
    SplitAfterFirst(prefix, "phase", rest);
    SplitNoFirstChar(rest, "phase");
    SplitTwo(A, "S", C);
    SplitNoFirstChar(A, "-");
    ParseDecimal(a); ParseDecimal(c);
    DayParts(prefix + "phase" + rest, rest, A, C);
  }
}
