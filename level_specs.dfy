/**
 * The level rules the crawler ships: `cond*`, `*` (mouse), `day*` and
 * `*XY*` (cell), the basic directory filter they share, the day-folder
 * rename and the day payload.
 */
module LevelSpecs {
  import opened Wrappers
  import opened Text
  import opened FileSystem
  import opened BuildSpec

  /**
   * `_filter_dir_basic(d)`: a directory whose name does not start with
   * `_` or `@`.
   */
  predicate FilterDirBasic(fs: Entries, d: Path) {
    IsDir(fs, d) && |d| > 0 && |NameOf(d)| > 0 && NameOf(d)[0] != '_' && NameOf(d)[0] != '@'
  }

  /** The name `_preprocess_day` gives a day folder. */
  function DayName(n: Name): (r: Name)
    ensures r == n || r == n + "_"
  {
    if |Split(n, "_")| < 2 then n + "_" else n
  }

  /** A name splits on `_` into fewer than two parts exactly when it has no `_`. */
  lemma SplitUnderscore(n: Name)
    ensures |Split(n, "_")| < 2 <==> !Contains(n, "_")
  {
    SplitAbsent(n, "_");
    if |Split(n, "_")| < 2 {
      SplitJoin(n, "_");
      assert Split(n, "_") == [Split(n, "_")[0]];
    }
  }

  lemma ContainsAppended(n: Name)
    ensures Contains(n + "_", "_")
  {
    assert OccursAt(n + "_", "_", |n|) by {
      assert (n + "_")[|n|..|n| + 1] == "_";
    }
  }

  /**
   * A day folder is renamed exactly when its name has no `_`, and then it
   * gets a trailing `_`; the new name always has a `_`.
   */
  lemma DayNameRenames(n: Name)
    ensures DayName(n) == n <==> Contains(n, "_")
    ensures !Contains(n, "_") ==> DayName(n) == n + "_"
    ensures Contains(DayName(n), "_")
  {
    SplitUnderscore(n);
    ContainsAppended(n);
    assert |n + "_"| != |n|;
  }

  /** Renaming a day folder a second time changes nothing. */
  lemma DayNameIdempotent(n: Name)
    ensures DayName(DayName(n)) == DayName(n)
  {
    DayNameRenames(n);
    DayNameRenames(DayName(n));
  }

  /** `day001` becomes `day001_`; `day002_` is left alone. */
  lemma DayNameExamples()
    ensures DayName("day001") == "day001_"
    ensures DayName("day002_") == "day002_"
  {
    NoUnderscore("day001");
    DayNameRenames("day001");
    assert "day002_" == "day002" + "_";
    ContainsAppended("day002");
    DayNameRenames("day002_");
  }

  lemma NoUnderscore(n: Name)
    requires '_' !in n
    ensures !Contains(n, "_")
  {
    forall i | 0 <= i < |n| ensures !OccursAt(n, "_", i) {
      assert n[i..i + 1] == [n[i]];
    }
  }

  function Identity(n: Name): Name {
    n
  }

  function EmptyPayload(d: Path, param: Param): Payload {
    map[]
  }

  /**
   * `get_exp_param(str(d))` when the parameter object has it and it
   * returns; `None` when it is missing or raises.  The capability is
   * modelled as returning a string or raising, so a Python
   * `get_exp_param` that returns `None` itself has no counterpart here;
   * its payload would be `None` too.
   */
  function ExpParam(d: Path, param: Param): Option<string> {
    match param.getExpParam
      case None => None
      case Some(get) =>
        match get(PathString(d))
          case Ok(v) => Some(v)
          case Raised(_) => None
  }

  /**
   * `_load_day_payload(d, param)`: the single key `exp_param`, whose value
   * is `None` when the capability is missing or raises.  "Exactly when"
   * below holds because a modelled capability never returns `None`.
   */
  function DayPayload(d: Path, param: Param): (r: Payload)
    ensures r.Keys == {"exp_param"}
    ensures r["exp_param"].None? <==>
      param.getExpParam.None? || param.getExpParam.value(PathString(d)).Raised?
    ensures r["exp_param"].Some? ==> param.getExpParam.value(PathString(d)) == Ok(r["exp_param"].value)
  {
    map["exp_param" := ExpParam(d, param)]
  }

  /** `make_cond_spec()` */
  function CondSpec(): LevelSpec {
    LevelSpec("cond", "cond*", FilterDirBasic, Identity, EmptyPayload)
  }

  /** `make_mouse_spec()` */
  function MouseSpec(): LevelSpec {
    LevelSpec("mouse", "*", FilterDirBasic, Identity, EmptyPayload)
  }

  /** `make_day_spec()` */
  function DaySpec(): LevelSpec {
    LevelSpec("day", "day*", FilterDirBasic, DayName, DayPayload)
  }

  /** `make_cell_spec()` */
  function CellSpec(): LevelSpec {
    LevelSpec("cell", "*XY*", FilterDirBasic, Identity, EmptyPayload)
  }

  /** The rules of a behaviour experiment: condition, mouse, day. */
  function BehaviorSpecs(): seq<LevelSpec> {
    [CondSpec(), MouseSpec(), DaySpec()]
  }

  /** A name the basic filter lets through. */
  predicate Visible(n: Name) {
    |n| > 0 && n[0] != '_' && n[0] != '@'
  }

  lemma MadeVisible(spec: LevelSpec, fs: Entries, d: Path, t: Tree)
    requires spec.filter == FilterDirBasic && Made(spec, fs, d, t)
    ensures Visible(NameOf(d))
  {
    assert FilterDirBasic(fs, d);
  }

  /** The basic filter looks only at the directory itself. */
  lemma BasicFilterLocal()
    ensures Local(FilterDirBasic)
  {
    forall fs1, fs2, d | SameBelow(fs1, fs2, d) ensures FilterDirBasic(fs1, d) == FilterDirBasic(fs2, d) {
      assert Below(d, d);
    }
  }

  /** A cell node: visible, and its name has `XY` in it. */
  lemma CellNode(fs: Entries, d: Path, t: Tree)
    requires Made(CellSpec(), fs, d, t)
    ensures t.level == "cell" && t.name == NameOf(d) && Visible(t.name) && Contains(t.name, "XY")
  {
    MadeVisible(CellSpec(), fs, d, t);
    assert "*" + "XY" + "*" == CellSpec().pattern;
    MatchInfix("XY", NameOf(d));
  }

  /**
   * The forest built with the behaviour rules: visible `cond…` folders,
   * each holding visible mouse folders, each holding visible `day…`
   * folders whose names have a `_` and which carry an `exp_param` payload
   * and nothing below them.
   */
  lemma BehaviorTree(param: Param, fs: Entries, root: Path)
    requires BuildTree(BehaviorSpecs(), param, fs, root).Some?
    ensures forall c :: c in BuildTree(BehaviorSpecs(), param, fs, root).value.trees ==>
      CondNode(c, param)
  {
    var specs := BehaviorSpecs();
    BuildLevelConforms(specs, param, fs, root, 0);
    forall c | c in BuildTree(specs, param, fs, root).value.trees ensures CondNode(c, param) {
      CondShape(c, param);
    }
  }

  ghost predicate CondNode(c: Tree, param: Param) {
    c.level == "cond" && Visible(c.name) && StartsWith(c.name, "cond") && c.payload == map[] &&
    forall m :: m in c.children ==> MouseNode(m, param)
  }

  ghost predicate MouseNode(m: Tree, param: Param) {
    m.level == "mouse" && Visible(m.name) && m.payload == map[] &&
    forall d :: d in m.children ==> DayNode(d, param)
  }

  ghost predicate DayNode(d: Tree, param: Param) {
    d.level == "day" && Visible(d.name) && StartsWith(d.name, "day") && Contains(d.name, "_") &&
    d.payload == DayPayload(d.path, param) && d.children == []
  }

  lemma CondShape(c: Tree, param: Param)
    requires Conforms(c, BehaviorSpecs(), param, 0)
    ensures CondNode(c, param)
  {
    var fs, d := MadeFrom(c, BehaviorSpecs(), param, 0);
    CondMade(fs, d, c);
    assert c.payload == EmptyPayload(c.path, param);
    forall m | m in c.children ensures MouseNode(m, param) {
      MouseShape(m, param);
    }
  }

  /** A node made by the cond rule: a visible `cond…` name, kept as found. */
  lemma CondMade(fs: Entries, d: Path, c: Tree)
    requires Made(CondSpec(), fs, d, c)
    ensures Visible(c.name) && StartsWith(c.name, "cond")
  {
    MadeVisible(CondSpec(), fs, d, c);
    assert "cond" + "*" == CondSpec().pattern;
    MatchPrefixStar("cond", NameOf(d));
    assert c.name == NameOf(d);
  }

  lemma MouseShape(m: Tree, param: Param)
    requires Conforms(m, BehaviorSpecs(), param, 1)
    ensures MouseNode(m, param)
  {
    var fs, d := MadeFrom(m, BehaviorSpecs(), param, 1);
    MadeVisible(MouseSpec(), fs, d, m);
    assert m.name == NameOf(d);
    assert m.payload == EmptyPayload(m.path, param);
    forall x | x in m.children ensures DayNode(x, param) {
      DayShape(x, param);
    }
  }

  /** The renamed day folder keeps its visible `day` prefix and has a `_`. */
  lemma DayNameKeeps(n: Name)
    requires Visible(n) && StartsWith(n, "day")
    ensures Visible(DayName(n)) && StartsWith(DayName(n), "day") && Contains(DayName(n), "_")
  {
    DayNameRenames(n);
    assert DayName(n)[..3] == n[..3] && DayName(n)[0] == n[0];
  }

  lemma DayShape(x: Tree, param: Param)
    requires Conforms(x, BehaviorSpecs(), param, 2)
    ensures DayNode(x, param)
  {
    var fs, d := MadeFrom(x, BehaviorSpecs(), param, 2);
    DayMade(fs, d, x);
    LastLevelLeaves(x, BehaviorSpecs(), param);
  }

  /** A node made by the day rule: a visible `day…` name with a `_` in it. */
  lemma DayMade(fs: Entries, d: Path, x: Tree)
    requires Made(DaySpec(), fs, d, x)
    ensures Visible(x.name) && StartsWith(x.name, "day") && Contains(x.name, "_")
  {
    MadeVisible(DaySpec(), fs, d, x);
    assert "day" + "*" == DaySpec().pattern;
    MatchPrefixStar("day", NameOf(d));
    DayNameKeeps(NameOf(d));
  }
}
