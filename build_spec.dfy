/**
 * What `build_tree_generic` computes, stated as pure functions: the forest
 * of levels it builds below a root directory, and the disk it leaves behind
 * after the renames its level rules perform.
 */
module BuildSpec {
  import opened Wrappers
  import opened Text
  import opened FileSystem

  /** A node's payload dictionary; every value is optional (`None`). */
  type Payload = map<string, Option<string>>

  /**
   * The `analysis_param` handed to every rule.  Its one capability the rules
   * use, `get_exp_param`, may be missing; when present it may raise.
   */
  datatype Param = Param(getExpParam: Option<string -> Result<string>>)

  /**
   * `LevelSpec`: which entries of a directory become nodes of this level
   * and how.  `rename` is the name rewriting `preprocess_dir` performs: a
   * directory whose name it changes is renamed on disk to that new name.
   */
  datatype LevelSpec = LevelSpec(
    level: string,
    pattern: string,
    filter: (Entries, Path) -> bool,
    rename: Name -> Name,
    loadPayload: (Path, Param) -> Payload)

  /** The value a `HierNode` and its descendants hold. */
  datatype Tree = Tree(name: Name, path: Path, level: string, payload: Payload, children: seq<Tree>)

  /**
   * The outcome of building one level below a directory: the nodes, the
   * index among the candidates of the directory each node came from, and
   * the disk afterwards.
   */
  datatype Built = Built(trees: seq<Tree>, picked: seq<nat>, fs: Entries)

  /**
   * `preprocess_dir(d)`: the path the node is built from, and the disk
   * after the rename.  `None` when the new name is already taken: what
   * the operating system then does is left open.
   */
  function Preprocess(fs: Entries, d: Path, rename: Name -> Name): (r: Option<(Path, Entries)>)
    requires |d| > 0
    ensures r.Some? ==> r.value.0 == WithName(d, rename(NameOf(d)))
    ensures r.Some? && rename(NameOf(d)) == NameOf(d) ==> r.value.1 == fs
    ensures r.None? <==> rename(NameOf(d)) != NameOf(d) && Occupied(fs, WithName(d, rename(NameOf(d))))
  {
    var n := rename(NameOf(d));
    if n == NameOf(d) then
      assert WithName(d, n) == d;
      Some((d, fs))
    else if Occupied(fs, WithName(d, n)) then None
    else Some((WithName(d, n), Renamed(fs, d, WithName(d, n))))
  }

  /** Every candidate is a path with a last component. */
  predicate Named(cands: seq<Path>) {
    forall i :: 0 <= i < |cands| ==> |cands[i]| > 0
  }

  /**
   * `_build_level(parent, base, depth)`: no nodes once the rules are used
   * up; otherwise one node per accepted entry of `sorted(base.glob(...))`.
   */
  function BuildLevel(specs: seq<LevelSpec>, param: Param, fs: Entries, base: Path, depth: nat): Option<Built>
    decreases |specs| - depth, 2, 0
  {
    if depth >= |specs| then Some(Built([], [], fs))
    else BuildEach(specs, param, fs, Glob(fs, base, specs[depth].pattern), 0, depth)
  }

  /** The loop of `_build_level` from candidate `i` on. */
  function BuildEach(specs: seq<LevelSpec>, param: Param, fs: Entries, cands: seq<Path>, i: nat, depth: nat): Option<Built>
    requires depth < |specs| && i <= |cands| && Named(cands)
    decreases |specs| - depth, 1, |cands| - i
  {
    if i == |cands| then Some(Built([], [], fs))
    else if !IsDir(fs, cands[i]) || !specs[depth].filter(fs, cands[i]) then
      BuildEach(specs, param, fs, cands, i + 1, depth)
    else match Step(specs, param, fs, cands[i], depth)
      case None => None
      case Some(s) =>
        match BuildEach(specs, param, s.1, cands, i + 1, depth)
          case None => None
          case Some(rest) => Some(Built([s.0] + rest.trees, [i] + rest.picked, rest.fs))
  }

  /**
   * One pass of the loop body for an accepted directory `d`: preprocess
   * it, load its payload, build its children under the new path.  The
   * node and the disk afterwards.
   */
  function Step(specs: seq<LevelSpec>, param: Param, fs: Entries, d: Path, depth: nat): (r: Option<(Tree, Entries)>)
    requires depth < |specs| && |d| > 0
    ensures r.Some? ==>
      var n := specs[depth].rename(NameOf(d));
      r.value.0.path == WithName(d, n) && r.value.0.name == n && r.value.0.level == specs[depth].level
    decreases |specs| - depth, 0, 0
  {
    var spec := specs[depth];
    match Preprocess(fs, d, spec.rename)
      case None => None
      case Some(moved) =>
        var d2 := moved.0;
        match BuildLevel(specs, param, moved.1, d2, depth + 1)
          case None => None
          case Some(sub) => Some((Tree(NameOf(d2), d2, spec.level, spec.loadPayload(d2, param), sub.trees), sub.fs))
  }

  /** `build_tree_generic(root, ...)`. */
  function BuildTree(specs: seq<LevelSpec>, param: Param, fs: Entries, root: Path): Option<Built> {
    BuildLevel(specs, param, fs, root, 0)
  }

  /** The entries directly inside `base` whose names match `pattern`. */
  predicate Listed(cands: seq<Path>, base: Path, pattern: string) {
    forall j :: 0 <= j < |cands| ==>
      |cands[j]| == |base| + 1 && cands[j][..|base|] == base && Match(pattern, NameOf(cands[j]))
  }

  /**
   * A tree built by rule `depth`: it has that rule's level and payload, it
   * lies directly inside its parent's directory, no rule is left over for
   * deeper nodes, and its children are built by the next rule.
   */
  ghost predicate Conforms(t: Tree, specs: seq<LevelSpec>, param: Param, depth: nat)
    decreases t
  {
    depth < |specs| &&
    (exists fs', d :: Made(specs[depth], fs', d, t)) &&
    t.level == specs[depth].level &&
    |t.path| > 0 && t.name == NameOf(t.path) &&
    t.payload == specs[depth].loadPayload(t.path, param) &&
    forall c :: c in t.children ==>
      |c.path| == |t.path| + 1 && c.path[..|t.path|] == t.path && Conforms(c, specs, param, depth + 1)
  }

  ghost predicate AllConform(ts: seq<Tree>, specs: seq<LevelSpec>, param: Param, depth: nat) {
    forall t :: t in ts ==> Conforms(t, specs, param, depth)
  }

  /** The candidate and the disk a conforming tree was made from. */
  lemma MadeFrom(t: Tree, specs: seq<LevelSpec>, param: Param, depth: nat) returns (fs: Entries, d: Path)
    requires Conforms(t, specs, param, depth)
    ensures depth < |specs| && Made(specs[depth], fs, d, t)
  {
    fs, d :| Made(specs[depth], fs, d, t);
  }

  /** Every path of `ts` lies directly inside `base`. */
  predicate Inside(ts: seq<Tree>, base: Path) {
    forall t :: t in ts ==> |t.path| == |base| + 1 && t.path[..|base|] == base
  }

  /** Every node built by `_build_level` conforms to its rule. */
  lemma {:induction false} BuildLevelConforms(specs: seq<LevelSpec>, param: Param, fs: Entries, base: Path, depth: nat)
    requires BuildLevel(specs, param, fs, base, depth).Some?
    ensures AllConform(BuildLevel(specs, param, fs, base, depth).value.trees, specs, param, depth)
    ensures Inside(BuildLevel(specs, param, fs, base, depth).value.trees, base)
    decreases |specs| - depth, 2, 0
  {
    if depth < |specs| {
      var cands := Glob(fs, base, specs[depth].pattern);
      BuildEachConforms(specs, param, fs, base, cands, 0, depth);
    }
  }

  lemma {:induction false} BuildEachConforms(specs: seq<LevelSpec>, param: Param, fs: Entries, base: Path, cands: seq<Path>, i: nat, depth: nat)
    requires depth < |specs| && i <= |cands| && Named(cands)
    requires Listed(cands, base, specs[depth].pattern)
    requires BuildEach(specs, param, fs, cands, i, depth).Some?
    ensures AllConform(BuildEach(specs, param, fs, cands, i, depth).value.trees, specs, param, depth)
    ensures Inside(BuildEach(specs, param, fs, cands, i, depth).value.trees, base)
    decreases |specs| - depth, 1, |cands| - i
  {
    if i < |cands| {
      var d := cands[i];
      if !IsDir(fs, d) || !specs[depth].filter(fs, d) {
        BuildEachConforms(specs, param, fs, base, cands, i + 1, depth);
      } else {
        var s := Step(specs, param, fs, d, depth).value;
        StepConforms(specs, param, fs, d, depth);
        BuildEachConforms(specs, param, s.1, base, cands, i + 1, depth);
        assert s.0.path[..|base|] == d[..|base|] by {
          assert s.0.path[..|d| - 1] == d[..|d| - 1];
        }
      }
    }
  }

  lemma {:induction false} StepConforms(specs: seq<LevelSpec>, param: Param, fs: Entries, d: Path, depth: nat)
    requires depth < |specs| && |d| > 0
    requires Match(specs[depth].pattern, NameOf(d)) && IsDir(fs, d) && specs[depth].filter(fs, d)
    requires Step(specs, param, fs, d, depth).Some?
    ensures Conforms(Step(specs, param, fs, d, depth).value.0, specs, param, depth)
    decreases |specs| - depth, 0, 0
  {
    var moved := Preprocess(fs, d, specs[depth].rename).value;
    BuildLevelConforms(specs, param, moved.1, moved.0, depth + 1);
    assert Made(specs[depth], fs, d, Step(specs, param, fs, d, depth).value.0);
  }

  /** Number of levels in a tree. */
  function Height(t: Tree): (r: nat)
    ensures r >= 1
    decreases t
  {
    1 + HeightAll(t.children)
  }

  function HeightAll(ts: seq<Tree>): (r: nat)
    ensures ts != [] ==> r >= Height(ts[0])
    decreases ts
  {
    if ts == [] then 0
    else
      var h := Height(ts[0]);
      var rest := HeightAll(ts[1..]);
      if h < rest then rest else h
  }

  /** A tree built by rule `depth` is at most as tall as the rules left. */
  lemma {:induction false} ConformsHeight(t: Tree, specs: seq<LevelSpec>, param: Param, depth: nat)
    requires Conforms(t, specs, param, depth)
    ensures Height(t) <= |specs| - depth
    decreases t
  {
    ConformsHeightAll(t.children, specs, param, depth + 1);
  }

  lemma {:induction false} ConformsHeightAll(ts: seq<Tree>, specs: seq<LevelSpec>, param: Param, depth: nat)
    requires depth <= |specs| && AllConform(ts, specs, param, depth)
    ensures HeightAll(ts) <= |specs| - depth
    decreases ts
  {
    if ts != [] {
      assert ts[0] in ts;
      ConformsHeight(ts[0], specs, param, depth);
      assert forall t :: t in ts[1..] ==> t in ts;
      ConformsHeightAll(ts[1..], specs, param, depth);
    }
  }

  /** Nodes built by the last rule have no children. */
  lemma LastLevelLeaves(t: Tree, specs: seq<LevelSpec>, param: Param)
    requires |specs| > 0 && Conforms(t, specs, param, |specs| - 1)
    ensures t.children == []
  {
    ConformsHeight(t, specs, param, |specs| - 1);
  }

  /** The whole forest is no taller than the number of rules. */
  lemma BuildTreeHeight(specs: seq<LevelSpec>, param: Param, fs: Entries, root: Path)
    requires BuildTree(specs, param, fs, root).Some?
    ensures forall t :: t in BuildTree(specs, param, fs, root).value.trees ==> Height(t) <= |specs|
  {
    BuildLevelConforms(specs, param, fs, root, 0);
    forall t | t in BuildTree(specs, param, fs, root).value.trees ensures Height(t) <= |specs| {
      ConformsHeight(t, specs, param, 0);
    }
  }

  /** Every candidate lies directly inside `base`. */
  predicate InsideDir(cands: seq<Path>, base: Path) {
    forall j :: 0 <= j < |cands| ==> |cands[j]| == |base| + 1 && cands[j][..|base|] == base
  }

  /**
   * A directory filter that looks only at the directory and what lies
   * below it: two disks that agree there get the same answer.
   */
  ghost predicate Local(filter: (Entries, Path) -> bool) {
    forall fs1, fs2, d :: SameBelow(fs1, fs2, d) ==> filter(fs1, d) == filter(fs2, d)
  }

  /** A path below a child of `base` lies strictly below `base`. */
  lemma BelowChild(q: Path, x: Path, base: Path)
    requires |x| == |base| + 1 && x[..|base|] == base && Below(q, x)
    ensures |q| > |base| && Below(q, base)
  {
    assert q[..|base|] == q[..|x|][..|base|];
  }

  /**
   * Building a level below `base` changes the disk only strictly below
   * `base`: every rename and every deeper level stays inside it.
   */
  lemma {:induction false} BuildLevelFrame(specs: seq<LevelSpec>, param: Param, fs: Entries, base: Path, depth: nat)
    requires BuildLevel(specs, param, fs, base, depth).Some?
    ensures forall q :: !Agree(fs, BuildLevel(specs, param, fs, base, depth).value.fs, q) ==> |q| > |base| && Below(q, base)
    decreases |specs| - depth, 2, 0
  {
    if depth < |specs| {
      BuildEachFrame(specs, param, fs, base, Glob(fs, base, specs[depth].pattern), 0, depth);
    }
  }

  /** The candidate loop from `i` on changes the disk only strictly below `base`. */
  lemma {:induction false} BuildEachFrame(specs: seq<LevelSpec>, param: Param, fs: Entries, base: Path, cands: seq<Path>, i: nat, depth: nat)
    requires depth < |specs| && i <= |cands| && Named(cands) && InsideDir(cands, base)
    requires BuildEach(specs, param, fs, cands, i, depth).Some?
    ensures forall q :: !Agree(fs, BuildEach(specs, param, fs, cands, i, depth).value.fs, q) ==> |q| > |base| && Below(q, base)
    decreases |specs| - depth, 1, |cands| - i
  {
    if i < |cands| {
      var d := cands[i];
      if !IsDir(fs, d) || !specs[depth].filter(fs, d) {
        BuildEachFrame(specs, param, fs, base, cands, i + 1, depth);
      } else {
        var s := Step(specs, param, fs, d, depth).value;
        var d2 := WithName(d, specs[depth].rename(NameOf(d)));
        StepFrame(specs, param, fs, d, depth);
        BuildEachFrame(specs, param, s.1, base, cands, i + 1, depth);
        var fs' := BuildEach(specs, param, fs, cands, i, depth).value.fs;
        assert fs' == BuildEach(specs, param, s.1, cands, i + 1, depth).value.fs;
        forall q | !Agree(fs, fs', q) ensures |q| > |base| && Below(q, base) {
          if Agree(fs, s.1, q) {
            assert !Agree(s.1, fs', q);
          } else if Below(q, d) {
            BelowChild(q, d, base);
          } else {
            assert d2[..|base|] == d[..|base|] by {
              assert d2[..|d| - 1] == d[..|d| - 1];
            }
            BelowChild(q, d2, base);
          }
        }
      }
    }
  }

  /**
   * One accepted candidate `d` changes the disk only at `d` and below it
   * (the entries moved away) and at its new path and below it.
   */
  lemma {:induction false} StepFrame(specs: seq<LevelSpec>, param: Param, fs: Entries, d: Path, depth: nat)
    requires depth < |specs| && |d| > 0
    requires Step(specs, param, fs, d, depth).Some?
    ensures var d2 := WithName(d, specs[depth].rename(NameOf(d)));
      forall q :: !Agree(fs, Step(specs, param, fs, d, depth).value.1, q) ==> Below(q, d) || Below(q, d2)
    decreases |specs| - depth, 0, 0
  {
    var moved := Preprocess(fs, d, specs[depth].rename).value;
    var d2 := moved.0;
    BuildLevelFrame(specs, param, moved.1, d2, depth + 1);
    var fs' := Step(specs, param, fs, d, depth).value.1;
    assert fs' == BuildLevel(specs, param, moved.1, d2, depth + 1).value.fs;
    forall q | !Below(q, d) && !Below(q, d2) ensures Agree(fs, fs', q) {
      assert Agree(fs, moved.1, q);
      assert Agree(moved.1, fs', q);
    }
  }

  /**
   * `b` holds exactly the nodes rule `spec` makes from the candidates
   * `cands[i..]` on disk `fs`: node `j` comes from candidate `picked[j]`
   * and carries its renamed name and path, the picks strictly increase,
   * and candidate `k` is picked exactly when it is a directory the filter
   * accepts.
   */
  predicate Picks(spec: LevelSpec, fs: Entries, cands: seq<Path>, i: nat, b: Built) {
    |b.picked| == |b.trees| &&
    (forall j :: 0 <= j < |b.picked| ==> i <= b.picked[j] < |cands|) &&
    (forall j, k :: 0 <= j < k < |b.picked| ==> b.picked[j] < b.picked[k]) &&
    (forall j :: 0 <= j < |b.picked| ==> Made(spec, fs, cands[b.picked[j]], b.trees[j])) &&
    forall k :: i <= k < |cands| ==> (k in b.picked <==> IsDir(fs, cands[k]) && spec.filter(fs, cands[k]))
  }

  /**
   * The loop of `_build_level` over distinct candidates that exist on the
   * disk, with a filter that looks only at the directory: the nodes are
   * exactly those the rule makes from the candidates judged on the disk
   * as it was before the loop, since earlier candidates' renames and
   * subtrees never reach a later candidate.
   */
  lemma {:induction false} BuildEachPicked(specs: seq<LevelSpec>, param: Param, fs: Entries, base: Path, cands: seq<Path>, i: nat, depth: nat)
    requires depth < |specs| && i <= |cands| && Named(cands)
    requires Listed(cands, base, specs[depth].pattern)
    requires forall j, k :: 0 <= j < k < |cands| ==> cands[j] != cands[k]
    requires forall k :: i <= k < |cands| ==> cands[k] in fs
    requires Local(specs[depth].filter)
    requires BuildEach(specs, param, fs, cands, i, depth).Some?
    ensures Picks(specs[depth], fs, cands, i, BuildEach(specs, param, fs, cands, i, depth).value)
    decreases |cands| - i, 1
  {
    if i < |cands| {
      if !IsDir(fs, cands[i]) || !specs[depth].filter(fs, cands[i]) {
        BuildEachPicked(specs, param, fs, base, cands, i + 1, depth);
      } else {
        AcceptedPicked(specs, param, fs, base, cands, i, depth);
      }
    }
  }

  /** `BuildEachPicked` when candidate `i` is an accepted directory. */
  lemma {:induction false} AcceptedPicked(specs: seq<LevelSpec>, param: Param, fs: Entries, base: Path, cands: seq<Path>, i: nat, depth: nat)
    requires depth < |specs| && i < |cands| && Named(cands)
    requires Listed(cands, base, specs[depth].pattern)
    requires forall j, k :: 0 <= j < k < |cands| ==> cands[j] != cands[k]
    requires forall k :: i <= k < |cands| ==> cands[k] in fs
    requires Local(specs[depth].filter)
    requires IsDir(fs, cands[i]) && specs[depth].filter(fs, cands[i])
    requires BuildEach(specs, param, fs, cands, i, depth).Some?
    ensures Picks(specs[depth], fs, cands, i, BuildEach(specs, param, fs, cands, i, depth).value)
    decreases |cands| - i, 0
  {
    var d := cands[i];
    var s := Step(specs, param, fs, d, depth).value;
    var rest := BuildEach(specs, param, s.1, cands, i + 1, depth).value;
    assert BuildEach(specs, param, fs, cands, i, depth).value == Built([s.0] + rest.trees, [i] + rest.picked, rest.fs);
    LaterUntouched(specs, param, fs, base, cands, i, depth);
    BuildEachPicked(specs, param, s.1, base, cands, i + 1, depth);
    assert Made(specs[depth], fs, d, s.0);
    PicksCons(specs[depth], fs, s.1, cands, i, s.0, rest);
  }

  /** An accepted candidate in front of the picks of the rest, judged alike on both disks. */
  lemma PicksCons(spec: LevelSpec, fs: Entries, fs1: Entries, cands: seq<Path>, i: nat, t: Tree, rest: Built)
    requires i < |cands| && Made(spec, fs, cands[i], t) && Picks(spec, fs1, cands, i + 1, rest)
    requires forall k :: i < k < |cands| ==>
      IsDir(fs1, cands[k]) == IsDir(fs, cands[k]) && spec.filter(fs1, cands[k]) == spec.filter(fs, cands[k])
    ensures Picks(spec, fs, cands, i, Built([t] + rest.trees, [i] + rest.picked, rest.fs))
  {
    var b := Built([t] + rest.trees, [i] + rest.picked, rest.fs);
    forall j | 0 <= j < |b.picked| ensures Made(spec, fs, cands[b.picked[j]], b.trees[j]) {
      if j > 0 {
        assert b.picked[j] == rest.picked[j - 1] && b.trees[j] == rest.trees[j - 1];
        assert Made(spec, fs1, cands[b.picked[j]], b.trees[j]);
      }
    }
    forall k | i < k < |cands| ensures (k in b.picked <==> k in rest.picked) {
    }
  }

  /**
   * After accepted candidate `i` is processed, every later candidate and
   * everything below it is as it was, so the later candidates are judged
   * on the same entries.
   */
  lemma LaterUntouched(specs: seq<LevelSpec>, param: Param, fs: Entries, base: Path, cands: seq<Path>, i: nat, depth: nat)
    requires depth < |specs| && i < |cands| && Named(cands) && InsideDir(cands, base)
    requires forall j, k :: 0 <= j < k < |cands| ==> cands[j] != cands[k]
    requires forall k :: i < k < |cands| ==> cands[k] in fs
    requires Local(specs[depth].filter)
    requires Step(specs, param, fs, cands[i], depth).Some?
    ensures var fs' := Step(specs, param, fs, cands[i], depth).value.1;
      forall k :: i < k < |cands| ==>
        cands[k] in fs' && IsDir(fs', cands[k]) == IsDir(fs, cands[k]) &&
        specs[depth].filter(fs', cands[k]) == specs[depth].filter(fs, cands[k])
  {
    var d := cands[i];
    var d2 := WithName(d, specs[depth].rename(NameOf(d)));
    var fs' := Step(specs, param, fs, d, depth).value.1;
    StepFrame(specs, param, fs, d, depth);
    assert Preprocess(fs, d, specs[depth].rename).Some?;
    forall k | i < k < |cands| ensures SameBelow(fs, fs', cands[k]) {
      var x := cands[k];
      assert x in fs && Below(x, x);
      if specs[depth].rename(NameOf(d)) != NameOf(d) {
        assert !Occupied(fs, d2);
      }
      assert x != d2;
      forall q | Below(q, x) ensures Agree(fs, fs', q) {
        if Below(q, d) {
          BelowSiblings(q, x, d);
        } else if Below(q, d2) {
          BelowSiblings(q, x, d2);
        }
      }
    }
    forall k | i < k < |cands|
      ensures cands[k] in fs' && IsDir(fs', cands[k]) == IsDir(fs, cands[k])
    {
      assert Below(cands[k], cands[k]);
    }
  }

  /**
   * Tree `t` is the node rule `spec` makes from candidate `d` on disk
   * `fs`: `d` is a directory whose name matches the rule's pattern and
   * which the filter accepts on `fs`, and `t` takes its name and path
   * from `d` after the rename.
   */
  predicate Made(spec: LevelSpec, fs: Entries, d: Path, t: Tree) {
    |d| > 0 && Match(spec.pattern, NameOf(d)) &&
    IsDir(fs, d) && spec.filter(fs, d) &&
    t.path == WithName(d, spec.rename(NameOf(d))) &&
    t.name == spec.rename(NameOf(d)) &&
    t.level == spec.level
  }

  /** The sorted glob lists each entry once. */
  lemma GlobDistinct(fs: Entries, base: Path, pattern: string)
    ensures var cands := Glob(fs, base, pattern);
      forall j, k :: 0 <= j < k < |cands| ==> cands[j] != cands[k]
  {
    var cands := Glob(fs, base, pattern);
    forall j, k | 0 <= j < k < |cands| ensures cands[j] != cands[k] {
      LexIrreflexive(NameOf(cands[j]));
    }
  }

  /**
   * `_build_level` with a filter that looks only at the directory: the
   * level's nodes are exactly the candidates of the sorted glob that are
   * directories the filter accepts, one node each, in the glob's order,
   * each with its renamed name and path.
   */
  lemma BuildLevelSorted(specs: seq<LevelSpec>, param: Param, fs: Entries, base: Path, depth: nat)
    requires depth < |specs| && Local(specs[depth].filter)
    requires BuildLevel(specs, param, fs, base, depth).Some?
    ensures var cands := Glob(fs, base, specs[depth].pattern);
      var b := BuildLevel(specs, param, fs, base, depth).value;
      |b.picked| == |b.trees| &&
      (forall j :: 0 <= j < |b.picked| ==> b.picked[j] < |cands| && Made(specs[depth], fs, cands[b.picked[j]], b.trees[j])) &&
      (forall j, k :: 0 <= j < k < |b.picked| ==> b.picked[j] < b.picked[k]) &&
      forall k :: 0 <= k < |cands| ==> (k in b.picked <==> IsDir(fs, cands[k]) && specs[depth].filter(fs, cands[k]))
  {
    var cands := Glob(fs, base, specs[depth].pattern);
    GlobDistinct(fs, base, specs[depth].pattern);
    BuildEachPicked(specs, param, fs, base, cands, 0, depth);
  }

}
