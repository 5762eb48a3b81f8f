/**
 * The crawler's objects: `HierNode` (with the `BehaviorNode` and
 * `SliceNode` level accessors), the tree builder `build_tree_generic`
 * and `GenericCrawler`.  Each is proved against the pure descriptions in
 * `BuildSpec` and `CrawlSpec`.
 */
module Crawler {
  import opened Wrappers
  import opened Text
  import opened FileSystem
  import opened BuildSpec
  import opened CrawlSpec

  /** The node factory that made a node: `HierNode`, `BehaviorNode` or `SliceNode`. */
  datatype Variant = Generic | Behavior | Slice

  /** The trees held by a list of nodes. */
  ghost function TreesOf(ns: seq<HierNode>): (r: seq<Tree>)
    reads set n | n in ns
    ensures |r| == |ns| && forall i :: 0 <= i < |ns| ==> r[i] == ns[i].tree
  {
    if ns == [] then [] else TreesOf(ns[..|ns| - 1]) + [ns[|ns| - 1].tree]
  }

  /**
   * The first node of `chain` at level `lvl`, or `null` when there is
   * none.
   */
  ghost function Nearest(chain: seq<HierNode>, lvl: string): (r: HierNode?)
    ensures r == null <==> forall i :: 0 <= i < |chain| ==> chain[i].level != lvl
    ensures r != null ==> exists i :: (0 <= i < |chain| && chain[i] == r && r.level == lvl &&
      forall j :: 0 <= j < i ==> chain[j].level != lvl)
  {
    if chain == [] then null
    else if chain[0].level == lvl then chain[0]
    else
      var r := Nearest(chain[1..], lvl);
      assert r != null ==> exists i :: (0 <= i < |chain[1..]| && chain[1..][i] == r && r.level == lvl &&
        forall j :: 0 <= j < i ==> chain[1..][j].level != lvl);
      assert forall i :: 1 <= i < |chain| ==> chain[i] == chain[1..][i - 1];
      r
  }

  /** The node after position `i` of a chain, or `null` past its end. */
  ghost function After(chain: seq<HierNode>, i: nat): HierNode? {
    if i + 1 < |chain| then chain[i + 1] else null
  }

  class HierNode {
    const name: Name
    const path: Path
    const level: string
    const parent: HierNode?
    const payload: Payload
    const variant: Variant
    var children: seq<HierNode>

    /** The ancestors of this node, its parent first. */
    ghost const up: seq<HierNode>
    /** The value of this node and everything below it. */
    ghost var tree: Tree
    ghost var Repr: set<HierNode>

    /** `up` follows the parent links to the top. */
    ghost predicate Linked()
      decreases |up|
    {
      if parent == null then up == [] else up == [parent] + parent.up && parent.Linked()
    }

    /** This node, then its ancestors. */
    ghost function Chain(): seq<HierNode> {
      [this] + up
    }

    /**
     * Every child names this node as its parent, the subtrees below the
     * children are separate from this node, and `tree` is the value of
     * the whole subtree.
     */
    ghost predicate Valid()
      reads this, Repr
      decreases Repr
    {
      this in Repr &&
      (forall c :: c in children ==>
        c in Repr && c.Repr <= Repr && this !in c.Repr && c.parent == this && c.Valid()) &&
      tree == Tree(name, path, level, payload, TreesOf(children))
    }

    /** The node factories: a node with no children yet. */
    constructor (name: Name, path: Path, level: string, parent: HierNode?, payload: Payload, variant: Variant)
      requires parent != null ==> parent.Linked()
      ensures this.name == name && this.path == path && this.level == level
      ensures this.parent == parent && this.payload == payload && this.variant == variant
      ensures children == [] && Linked() && Valid() && Repr == {this}
    {
      this.name := name;
      this.path := path;
      this.level := level;
      this.parent := parent;
      this.payload := payload;
      this.variant := variant;
      this.up := if parent == null then [] else [parent] + parent.up;
      children := [];
      tree := Tree(name, path, level, payload, []);
      Repr := {this};
    }

    /** `node.children = ...` on a node with no children yet. */
    method Adopt(kids: seq<HierNode>, ghost kidsRepr: set<HierNode>)
      requires Valid() && children == [] && Repr == {this}
      requires this !in kidsRepr && Roots(kids, this, variant, kidsRepr)
      modifies this
      ensures children == kids && Repr == {this} + kidsRepr && Valid()
      ensures tree == Tree(name, path, level, payload, old(TreesOf(kids)))
    {
      children := kids;
      Repr := {this} + kidsRepr;
      tree := Tree(name, path, level, payload, TreesOf(kids));
    }

    /** What `Valid` says of the children. */
    lemma ValidChildren()
      requires Valid()
      ensures forall c :: c in children ==> c.Valid() && c.Repr <= Repr - {this}
      ensures tree.children == TreesOf(children) && tree.level == level && tree.path == path
    {
    }

    /** Along the chain, each node's parent is the next one. */
    lemma ChainLinks()
      requires Linked()
      ensures forall i :: 0 <= i < |Chain()| ==> Chain()[i].parent == After(Chain(), i)
      decreases |up|
    {
      if parent != null {
        parent.ChainLinks();
        var c := Chain();
        var pc := parent.Chain();
        assert c == [this] + pc;
        forall i | 0 <= i < |c| ensures c[i].parent == After(c, i) {
          if i > 0 {
            assert c[i] == pc[i - 1];
          }
        }
      }
    }

    /**
     * `ancestor(level)`: the nearest node at `lvl` going up from this node
     * itself; `null` when no node on the way is at `lvl`.
     */
    method Ancestor(lvl: string) returns (r: HierNode?)
      requires Linked()
      ensures r == Nearest(Chain(), lvl)
      ensures lvl == level ==> r == this
    {
      ChainLinks();
      var node: HierNode? := this;
      ghost var k := 0;
      while node != null
        invariant 0 <= k <= |Chain()|
        invariant node == (if k < |Chain()| then Chain()[k] else null)
        invariant Nearest(Chain()[k..], lvl) == Nearest(Chain(), lvl)
        decreases |Chain()| - k
      {
        if node.level == lvl {
          return node;
        }
        assert Chain()[k..][1..] == Chain()[k + 1..];
        node := node.parent;
        k := k + 1;
      }
      return null;
    }

    /** `cond` of a `BehaviorNode` or a `SliceNode`. */
    method Cond() returns (r: HierNode?)
      requires Linked() && variant != Generic
      ensures r == Nearest(Chain(), "cond")
    {
      r := Ancestor("cond");
    }

    /** `mouse` of a `BehaviorNode`. */
    method Mouse() returns (r: HierNode?)
      requires Linked() && variant == Behavior
      ensures r == Nearest(Chain(), "mouse")
    {
      r := Ancestor("mouse");
    }

    /** `day` of a `BehaviorNode`. */
    method Day() returns (r: HierNode?)
      requires Linked() && variant == Behavior
      ensures r == Nearest(Chain(), "day")
    {
      r := Ancestor("day");
    }

    /** `cell` of a `SliceNode`. */
    method Cell() returns (r: HierNode?)
      requires Linked() && variant == Slice
      ensures r == Nearest(Chain(), "cell")
    {
      r := Ancestor("cell");
    }
  }

  /**
   * `preprocess_dir(d)` of a rule that renames by `rename`: a directory
   * whose name the rule changes is renamed on disk.
   */
  method PreprocessDir(disk: Disk, d: Path, rename: Name -> Name) returns (d2: Path)
    requires |d| > 0 && IsDir(disk.entries, d)
    requires Preprocess(disk.entries, d, rename).Some?
    modifies disk
    ensures (d2, disk.entries) == Preprocess(old(disk.entries), d, rename).value
  {
    var n := rename(NameOf(d));
    if n == NameOf(d) {
      d2 := d;
    } else {
      d2 := WithName(d, n);
      disk.Rename(d, d2);
    }
  }


  lemma TreesOfAppend(ns: seq<HierNode>, n: HierNode)
    ensures TreesOf(ns + [n]) == TreesOf(ns) + [n.tree]
  {
    assert (ns + [n])[..|ns|] == ns;
  }

  lemma RootsExtend(ns: seq<HierNode>, n: HierNode, parent: HierNode?, variant: Variant,
                    repr: set<HierNode>, nRepr: set<HierNode>)
    requires Roots(ns, parent, variant, repr)
    requires n in nRepr && n.Repr <= nRepr && n.parent == parent && n.variant == variant && n.Valid() && n.Linked()
    ensures Roots(ns + [n], parent, variant, repr + nRepr)
  {
  }

  /**
   * The loop of `_build_level` has built `done`, and `b`, what is left of
   * `BuildEach`, holds the rest of `target` and the disk it ends with.
   */
  ghost predicate Remains(b: Option<Built>, done: seq<Tree>, target: Built) {
    b.Some? && done + b.value.trees == target.trees && b.value.fs == target.fs
  }

  /** One candidate of the `_build_level` loop, as `BuildEach` takes it. */
  lemma RemainsStep(specs: seq<LevelSpec>, param: Param, fs: Entries, cands: seq<Path>, i: nat, depth: nat,
                    done: seq<Tree>, target: Built)
    requires depth < |specs| && i < |cands| && Named(cands)
    requires Remains(BuildEach(specs, param, fs, cands, i, depth), done, target)
    ensures IsDir(fs, cands[i]) && specs[depth].filter(fs, cands[i]) ==>
      var s := Step(specs, param, fs, cands[i], depth);
      s.Some? && Remains(BuildEach(specs, param, s.value.1, cands, i + 1, depth), done + [s.value.0], target)
    ensures !(IsDir(fs, cands[i]) && specs[depth].filter(fs, cands[i])) ==>
      Remains(BuildEach(specs, param, fs, cands, i + 1, depth), done, target)
  {
    if IsDir(fs, cands[i]) && specs[depth].filter(fs, cands[i]) {
      var s := Step(specs, param, fs, cands[i], depth).value;
      var after := BuildEach(specs, param, s.1, cands, i + 1, depth).value;
      Assoc(done, [s.0], after.trees);
    }
  }

  lemma WalkAllSnoc(kernels: seq<Kernel>, list: Listing, ts: seq<Tree>, j: nat)
    requires j < |ts|
    ensures WalkAll(kernels, list, ts[..j + 1]) == WalkAll(kernels, list, ts[..j]) + Walk(kernels, list, ts[j])
  {
    assert ts[..j + 1][..j] == ts[..j];
  }

  /** Every node of `ns` is a valid, linked subtree root under `parent`, inside `repr`. */
  ghost predicate Roots(ns: seq<HierNode>, parent: HierNode?, variant: Variant, repr: set<HierNode>)
    reads repr
  {
    forall n :: n in ns ==>
      n in repr && n.Repr <= repr && n.parent == parent && n.variant == variant && n.Valid() && n.Linked()
  }

  /**
   * `_build_level(parent, base, depth)`: the nodes it returns hold the
   * trees `BuildSpec.BuildLevel` describes, and the disk ends as it says.
   */
  method BuildLevelNodes(disk: Disk, specs: seq<LevelSpec>, param: Param, variant: Variant,
                         parent: HierNode?, base: Path, depth: nat)
    returns (nodes: seq<HierNode>, ghost repr: set<HierNode>)
    requires parent != null ==> parent.Linked()
    requires BuildLevel(specs, param, disk.entries, base, depth).Some?
    modifies disk
    ensures disk.entries == BuildLevel(specs, param, old(disk.entries), base, depth).value.fs
    ensures TreesOf(nodes) == BuildLevel(specs, param, old(disk.entries), base, depth).value.trees
    ensures fresh(repr) && Roots(nodes, parent, variant, repr)
    decreases |specs| - depth, 4
  {
    if depth >= |specs| {
      return [], {};
    }
    var cands := Glob(disk.entries, base, specs[depth].pattern);
    nodes, repr := BuildEachNodes(disk, specs, param, variant, parent, cands, depth);
  }

  /**
   * The loop of `_build_level` over the sorted candidates `cands`: the
   * directories the rule's filter accepts, each preprocessed and built in
   * turn.
   */
  method BuildEachNodes(disk: Disk, specs: seq<LevelSpec>, param: Param, variant: Variant,
                        parent: HierNode?, cands: seq<Path>, depth: nat)
    returns (nodes: seq<HierNode>, ghost repr: set<HierNode>)
    requires depth < |specs| && Named(cands)
    requires parent != null ==> parent.Linked()
    requires BuildEach(specs, param, disk.entries, cands, 0, depth).Some?
    modifies disk
    ensures disk.entries == BuildEach(specs, param, old(disk.entries), cands, 0, depth).value.fs
    ensures TreesOf(nodes) == BuildEach(specs, param, old(disk.entries), cands, 0, depth).value.trees
    ensures fresh(repr) && Roots(nodes, parent, variant, repr)
    decreases |specs| - depth, 3
  {
    nodes, repr := [], {};
    ghost var target := BuildEach(specs, param, disk.entries, cands, 0, depth).value;
    for i := 0 to |cands|
      invariant Remains(BuildEach(specs, param, disk.entries, cands, i, depth), TreesOf(nodes), target)
      invariant fresh(repr) && Roots(nodes, parent, variant, repr)
    {
      nodes, repr := BuildCandidate(disk, specs, param, variant, parent, cands, i, depth, nodes, repr, target);
    }
  }

  /**
   * One pass of the `_build_level` loop: candidate `cands[i]` is skipped
   * unless it is a directory the rule's filter accepts, and otherwise
   * becomes a node appended to `nodes`.
   */
  method BuildCandidate(disk: Disk, specs: seq<LevelSpec>, param: Param, variant: Variant,
                        parent: HierNode?, cands: seq<Path>, i: nat, depth: nat,
                        nodes: seq<HierNode>, ghost repr: set<HierNode>, ghost target: Built)
    returns (nodes': seq<HierNode>, ghost repr': set<HierNode>)
    requires depth < |specs| && i < |cands| && Named(cands)
    requires parent != null ==> parent.Linked()
    requires Remains(BuildEach(specs, param, disk.entries, cands, i, depth), TreesOf(nodes), target)
    requires Roots(nodes, parent, variant, repr)
    modifies disk
    ensures Remains(BuildEach(specs, param, disk.entries, cands, i + 1, depth), TreesOf(nodes'), target)
    ensures fresh(repr' - repr) && Roots(nodes', parent, variant, repr')
    decreases |specs| - depth, 2
  {
    nodes', repr' := nodes, repr;
    var d := cands[i];
    ghost var built := TreesOf(nodes);
    RemainsStep(specs, param, disk.entries, cands, i, depth, built, target);
    if IsDir(disk.entries, d) && specs[depth].filter(disk.entries, d) {
      ghost var s := Step(specs, param, disk.entries, d, depth).value;
      var node, nodeRepr := BuildNode(disk, specs, param, variant, parent, d, depth);
      assert node.tree == s.0 && disk.entries == s.1;
      assert TreesOf(nodes) == built && Roots(nodes, parent, variant, repr);
      TreesOfAppend(nodes, node);
      RootsExtend(nodes, node, parent, variant, repr, nodeRepr);
      nodes' := nodes + [node];
      repr' := repr + nodeRepr;
    }
  }

  /**
   * The loop body of `_build_level` for an accepted directory `d`:
   * preprocess it, load its payload, make its node and build the level
   * below it.
   */
  method BuildNode(disk: Disk, specs: seq<LevelSpec>, param: Param, variant: Variant,
                   parent: HierNode?, d: Path, depth: nat)
    returns (node: HierNode, ghost repr: set<HierNode>)
    requires depth < |specs| && |d| > 0 && IsDir(disk.entries, d)
    requires parent != null ==> parent.Linked()
    requires Step(specs, param, disk.entries, d, depth).Some?
    modifies disk
    ensures (node.tree, disk.entries) == Step(specs, param, old(disk.entries), d, depth).value
    ensures fresh(repr) && node in repr && node.Repr <= repr
    ensures node.parent == parent && node.variant == variant && node.Valid() && node.Linked()
    decreases |specs| - depth, 1
  {
    var spec := specs[depth];
    var d2 := PreprocessDir(disk, d, spec.rename);
    var payload := spec.loadPayload(d2, param);
    node, repr := MakeNode(disk, specs, param, variant, parent, d2, payload, depth);
  }

  /** The node for directory `d` at rule `depth`, with the level below it built. */
  method MakeNode(disk: Disk, specs: seq<LevelSpec>, param: Param, variant: Variant,
                  parent: HierNode?, d: Path, payload: Payload, depth: nat)
    returns (node: HierNode, ghost repr: set<HierNode>)
    requires depth < |specs| && |d| > 0
    requires parent != null ==> parent.Linked()
    requires BuildLevel(specs, param, disk.entries, d, depth + 1).Some?
    modifies disk
    ensures node.tree == Tree(NameOf(d), d, specs[depth].level, payload,
      BuildLevel(specs, param, old(disk.entries), d, depth + 1).value.trees)
    ensures disk.entries == BuildLevel(specs, param, old(disk.entries), d, depth + 1).value.fs
    ensures fresh(repr) && node in repr && node.Repr <= repr
    ensures node.parent == parent && node.variant == variant && node.Valid() && node.Linked()
    decreases |specs| - depth, 0
  {
    node := new HierNode(NameOf(d), d, specs[depth].level, parent, payload, variant);
    var kids, kidsRepr := BuildLevelNodes(disk, specs, param, variant, node, d, depth + 1);
    node.Adopt(kids, kidsRepr);
    repr := {node} + kidsRepr;
  }

  /** `build_tree_generic(root, ...)` with the given node factory. */
  method BuildTreeGeneric(disk: Disk, specs: seq<LevelSpec>, param: Param, variant: Variant, root: Path)
    returns (roots: seq<HierNode>, ghost repr: set<HierNode>)
    requires BuildTree(specs, param, disk.entries, root).Some?
    modifies disk
    ensures disk.entries == BuildTree(specs, param, old(disk.entries), root).value.fs
    ensures TreesOf(roots) == BuildTree(specs, param, old(disk.entries), root).value.trees
    ensures fresh(repr) && Roots(roots, null, variant, repr)
  {
    roots, repr := BuildLevelNodes(disk, specs, param, variant, null, root, 0);
  }

  /**
   * `GenericCrawler`: its kernels, and the hook calls made on them so far
   * (`log`).  The crawl context is passed to every hook unchanged.
   */
  class GenericCrawler {
    const kernels: seq<Kernel>
    const analysisParam: Param
    const projectDir: Path
    const overwrite: bool
    var log: seq<Event>

    constructor (kernels: seq<Kernel>, analysisParam: Param, projectDir: Path, overwrite: bool)
      ensures this.kernels == kernels && this.analysisParam == analysisParam
      ensures this.projectDir == projectDir && this.overwrite == overwrite && log == []
    {
      this.kernels := kernels;
      this.analysisParam := analysisParam;
      this.projectDir := projectDir;
      this.overwrite := overwrite;
      log := [];
    }

    /** `crawl_from_nodes(roots)` on a disk it only reads. */
    method CrawlFromNodes(disk: Disk, roots: seq<HierNode>, ghost repr: set<HierNode>)
      requires forall r :: r in roots ==> r.Valid() && r.Repr <= repr
      modifies this
      ensures log == old(log) + Crawl(kernels, ListingOf(disk.entries), TreesOf(roots))
    {
      var fs := disk.entries;
      ghost var start := log;
      StartHooks();
      WalkEach(fs, roots, repr);
      EndHooks();
      Assoc(start, Starts(|kernels|), WalkAll(kernels, ListingOf(fs), TreesOf(roots)));
      Assoc(start, Starts(|kernels|) + WalkAll(kernels, ListingOf(fs), TreesOf(roots)), Ends(|kernels|));
    }

    /** `on_project_start` of every kernel, in list order. */
    method StartHooks()
      modifies this
      ensures log == old(log) + Starts(|kernels|)
    {
      for k := 0 to |kernels|
        invariant log == old(log) + Starts(k)
      {
        log := log + [ProjectStart(k)];
      }
    }

    /** `on_project_end` of every kernel, in list order. */
    method EndHooks()
      modifies this
      ensures log == old(log) + Ends(|kernels|)
    {
      for k := 0 to |kernels|
        invariant log == old(log) + Ends(k)
      {
        log := log + [ProjectEnd(k)];
      }
    }

    /** `_walk_node(node)`: every kernel at the node, then each child. */
    method WalkNode(fs: Entries, node: HierNode)
      requires node.Valid()
      modifies this
      ensures log == old(log) + Walk(kernels, ListingOf(fs), node.tree)
      decreases node.Repr, 0
    {
      ghost var start := log;
      NodeHooks(fs, node.level, node.path);
      node.ValidChildren();
      WalkEach(fs, node.children, node.Repr - {node});
      Assoc(start, Block(kernels, ListingOf(fs), node.tree), WalkAll(kernels, ListingOf(fs), node.tree.children));
    }

    /** `_walk_node` on each of `ns` in turn; `bound` holds all their subtrees. */
    method WalkEach(fs: Entries, ns: seq<HierNode>, ghost bound: set<HierNode>)
      requires forall n :: n in ns ==> n.Valid() && n.Repr <= bound
      modifies this
      ensures log == old(log) + WalkAll(kernels, ListingOf(fs), TreesOf(ns))
      decreases bound, 1
    {
      ghost var start := log;
      ghost var trees := TreesOf(ns);
      for j := 0 to |ns|
        invariant log == start + WalkAll(kernels, ListingOf(fs), trees[..j])
      {
        assert ns[j] in ns;
        WalkNode(fs, ns[j]);
        WalkAllSnoc(kernels, ListingOf(fs), trees, j);
        Assoc(start, WalkAll(kernels, ListingOf(fs), trees[..j]), Walk(kernels, ListingOf(fs), trees[j]));
      }
      assert trees[..|ns|] == trees;
    }

    /** Every kernel at one node: `on_node`, then `on_file` for each sorted match of its pattern. */
    method NodeHooks(fs: Entries, level: string, node: Path)
      modifies this
      ensures log == old(log) + NodeEvents(kernels, ListingOf(fs), |kernels|, level, node)
    {
      ghost var start := log;
      for k := 0 to |kernels|
        invariant log == start + NodeEvents(kernels, ListingOf(fs), k, level, node)
      {
        ghost var before := log;
        KernelHooks(fs, k, level, node);
        Assoc(start, NodeEvents(kernels, ListingOf(fs), k, level, node), KernelEvents(kernels, ListingOf(fs), k, level, node));
      }
    }

    /** Kernel `k` at one node. */
    method KernelHooks(fs: Entries, k: nat, level: string, node: Path)
      requires k < |kernels|
      modifies this
      ensures log == old(log) + KernelEvents(kernels, ListingOf(fs), k, level, node)
    {
      ghost var start := log;
      log := log + [OnNode(k, node)];
      var pattern := kernels[k].filePattern(level, node);
      if pattern != "" {
        var files := Glob(fs, node, pattern);
        assert files == ListingOf(fs)(node, pattern);
        FileHooks(k, node, files);
        Assoc(start, [OnNode(k, node)], FileEvents(k, node, files));
      }
    }

    /** `on_file(node, f)` for each `f` of `files`, in order. */
    method FileHooks(k: nat, node: Path, files: seq<Path>)
      modifies this
      ensures log == old(log) + FileEvents(k, node, files)
    {
      for j := 0 to |files|
        invariant log == old(log) + FileEvents(k, node, files[..j])
      {
        assert files[..j + 1][..j] == files[..j];
        log := log + [OnFile(k, node, files[j])];
      }
      assert files[..|files|] == files;
    }
  }
}
