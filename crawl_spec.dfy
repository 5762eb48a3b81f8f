/**
 * What `GenericCrawler.crawl_from_nodes` does, stated as the sequence of
 * hook calls it makes on its kernels.  A hook call is an event naming the
 * kernel (its index in the crawler's list), the node (its path) and, for
 * `on_file`, the file.
 */
module CrawlSpec {
  import opened Text
  import opened FileSystem
  import opened BuildSpec

  datatype Event =
    | ProjectStart(kernel: nat)
    | OnNode(kernel: nat, node: Path)
    | OnFile(kernel: nat, node: Path, file: Path)
    | ProjectEnd(kernel: nat)

  /**
   * A `GenericKernel` as the crawler sees it: its file pattern for a node,
   * given the node's level and path (`""` means no file hooks).
   */
  datatype Kernel = Kernel(filePattern: (string, Path) -> string)

  /**
   * `sorted(path.glob(pattern))` on the disk the crawl runs on: the
   * crawler reads the disk and never changes it.
   */
  type Listing = (Path, string) -> seq<Path>

  /** The listing of disk `fs`. */
  function ListingOf(fs: Entries): Listing {
    (p: Path, pattern: string) => Glob(fs, p, pattern)
  }

  /** `on_file` for each of `files`, in order. */
  function FileEvents(k: nat, node: Path, files: seq<Path>): (r: seq<Event>)
    ensures |r| == |files|
    ensures forall j :: 0 <= j < |files| ==> r[j] == OnFile(k, node, files[j])
  {
    if files == [] then []
    else FileEvents(k, node, files[..|files| - 1]) + [OnFile(k, node, files[|files| - 1])]
  }

  /** Kernel `k` at a node: `on_node`, then `on_file` for each sorted match. */
  function KernelEvents(kernels: seq<Kernel>, list: Listing, k: nat, level: string, node: Path): seq<Event>
    requires k < |kernels|
  {
    var pattern := kernels[k].filePattern(level, node);
    [OnNode(k, node)] + (if pattern == "" then [] else FileEvents(k, node, list(node, pattern)))
  }

  /** The first `n` kernels at one node, in list order. */
  function NodeEvents(kernels: seq<Kernel>, list: Listing, n: nat, level: string, node: Path): seq<Event>
    requires n <= |kernels|
  {
    if n == 0 then []
    else NodeEvents(kernels, list, n - 1, level, node) + KernelEvents(kernels, list, n - 1, level, node)
  }

  /** The events of one node: every kernel, before any child. */
  function Block(kernels: seq<Kernel>, list: Listing, t: Tree): seq<Event> {
    NodeEvents(kernels, list, |kernels|, t.level, t.path)
  }

  /** `_walk_node(node)` */
  function Walk(kernels: seq<Kernel>, list: Listing, t: Tree): seq<Event>
    decreases t, 1
  {
    Block(kernels, list, t) + WalkAll(kernels, list, t.children)
  }

  /** `_walk_node` over each of `ts` in turn. */
  function WalkAll(kernels: seq<Kernel>, list: Listing, ts: seq<Tree>): seq<Event>
    decreases ts, 0
  {
    if ts == [] then []
    else WalkAll(kernels, list, ts[..|ts| - 1]) + Walk(kernels, list, ts[|ts| - 1])
  }

  /** `on_project_start` (or `on_project_end`) of the first `n` kernels. */
  function Starts(n: nat): (r: seq<Event>)
    ensures |r| == n && forall k :: 0 <= k < n ==> r[k] == ProjectStart(k)
  {
    if n == 0 then [] else Starts(n - 1) + [ProjectStart(n - 1)]
  }

  function Ends(n: nat): (r: seq<Event>)
    ensures |r| == n && forall k :: 0 <= k < n ==> r[k] == ProjectEnd(k)
  {
    if n == 0 then [] else Ends(n - 1) + [ProjectEnd(n - 1)]
  }

  /** `crawl_from_nodes(roots)` */
  function Crawl(kernels: seq<Kernel>, list: Listing, roots: seq<Tree>): seq<Event> {
    Starts(|kernels|) + WalkAll(kernels, list, roots) + Ends(|kernels|)
  }

  /** The nodes of a tree in pre-order: the node, then each child's subtree. */
  function Preorder(t: Tree): seq<Tree>
    decreases t, 1
  {
    [t] + PreorderAll(t.children)
  }

  function PreorderAll(ts: seq<Tree>): seq<Tree>
    decreases ts, 0
  {
    if ts == [] then [] else PreorderAll(ts[..|ts| - 1]) + Preorder(ts[|ts| - 1])
  }

  /** The blocks of a list of nodes, one after another. */
  function Blocks(kernels: seq<Kernel>, list: Listing, ns: seq<Tree>): seq<Event> {
    if ns == [] then [] else Blocks(kernels, list, ns[..|ns| - 1]) + Block(kernels, list, ns[|ns| - 1])
  }

  lemma {:induction false} BlocksAppend(kernels: seq<Kernel>, list: Listing, a: seq<Tree>, b: seq<Tree>)
    ensures Blocks(kernels, list, a + b) == Blocks(kernels, list, a) + Blocks(kernels, list, b)
    decreases |b|
  {
    if b == [] {
      assert a + b == a;
    } else {
      var b' := b[..|b| - 1];
      var last := b[|b| - 1];
      assert (a + b)[..|a + b| - 1] == a + b' && (a + b)[|a + b| - 1] == last;
      assert Blocks(kernels, list, a + b) == Blocks(kernels, list, a + b') + Block(kernels, list, last);
      BlocksAppend(kernels, list, a, b');
      Assoc(Blocks(kernels, list, a), Blocks(kernels, list, b'), Block(kernels, list, last));
    }
  }

  lemma Assoc<T>(a: seq<T>, b: seq<T>, c: seq<T>)
    ensures a + b + c == a + (b + c)
  {
  }

  /**
   * The walk is the node blocks in pre-order: at each node every kernel
   * runs before any child, and a subtree is finished before its next
   * sibling starts.
   */
  lemma {:induction false} WalkIsPreorder(kernels: seq<Kernel>, list: Listing, t: Tree)
    ensures Walk(kernels, list, t) == Blocks(kernels, list, Preorder(t))
    decreases t, 1
  {
    WalkAllIsPreorder(kernels, list, t.children);
    BlocksAppend(kernels, list, [t], PreorderAll(t.children));
    assert Blocks(kernels, list, [t]) == Block(kernels, list, t) by {
      assert [t][..0] == [];
    }
  }

  lemma {:induction false} WalkAllIsPreorder(kernels: seq<Kernel>, list: Listing, ts: seq<Tree>)
    ensures WalkAll(kernels, list, ts) == Blocks(kernels, list, PreorderAll(ts))
    decreases ts, 0
  {
    if ts != [] {
      WalkAllIsPreorder(kernels, list, ts[..|ts| - 1]);
      WalkIsPreorder(kernels, list, ts[|ts| - 1]);
      BlocksAppend(kernels, list, PreorderAll(ts[..|ts| - 1]), Preorder(ts[|ts| - 1]));
    }
  }

  /** Number of `on_node` calls in a list of events. */
  function CountOnNode(es: seq<Event>): nat {
    if es == [] then 0 else CountOnNode(es[..|es| - 1]) + (if es[|es| - 1].OnNode? then 1 else 0)
  }

  lemma {:induction false} CountAppend(a: seq<Event>, b: seq<Event>)
    ensures CountOnNode(a + b) == CountOnNode(a) + CountOnNode(b)
    decreases |b|
  {
    if b == [] {
      assert a + b == a;
    } else {
      assert (a + b)[..|a + b| - 1] == a + b[..|b| - 1];
      CountAppend(a, b[..|b| - 1]);
    }
  }

  lemma {:induction false} CountFiles(k: nat, node: Path, files: seq<Path>)
    ensures CountOnNode(FileEvents(k, node, files)) == 0
    decreases |files|
  {
    if files != [] {
      CountFiles(k, node, files[..|files| - 1]);
    }
  }

  /** At one node each of the `n` kernels gets exactly one `on_node`. */
  lemma {:induction false} CountNodeEvents(kernels: seq<Kernel>, list: Listing, n: nat, level: string, node: Path)
    requires n <= |kernels|
    ensures CountOnNode(NodeEvents(kernels, list, n, level, node)) == n
  {
    if n > 0 {
      CountKernelEvents(kernels, list, n - 1, level, node);
      CountNodeEvents(kernels, list, n - 1, level, node);
      CountSnoc(NodeEvents(kernels, list, n - 1, level, node), KernelEvents(kernels, list, n - 1, level, node), n - 1);
    }
  }

  lemma CountSnoc(a: seq<Event>, b: seq<Event>, x: nat)
    requires CountOnNode(a) == x && CountOnNode(b) == 1
    ensures CountOnNode(a + b) == x + 1
  {
    CountAppend(a, b);
  }

  /** One kernel at one node: one `on_node`, the rest `on_file`. */
  lemma CountKernelEvents(kernels: seq<Kernel>, list: Listing, k: nat, level: string, node: Path)
    requires k < |kernels|
    ensures CountOnNode(KernelEvents(kernels, list, k, level, node)) == 1
  {
    var pattern := kernels[k].filePattern(level, node);
    var files := if pattern == "" then [] else FileEvents(k, node, list(node, pattern));
    if pattern != "" {
      CountFiles(k, node, list(node, pattern));
    }
    CountAppend([OnNode(k, node)], files);
    assert CountOnNode([OnNode(k, node)]) == 1 by {
      assert [OnNode(k, node)][..0] == [];
    }
  }

  lemma {:induction false} CountBlocks(kernels: seq<Kernel>, list: Listing, ns: seq<Tree>)
    ensures CountOnNode(Blocks(kernels, list, ns)) == |kernels| * |ns|
  {
    if ns != [] {
      var last := ns[|ns| - 1];
      CountBlocks(kernels, list, ns[..|ns| - 1]);
      CountNodeEvents(kernels, list, |kernels|, last.level, last.path);
      CountAppend(Blocks(kernels, list, ns[..|ns| - 1]), Block(kernels, list, last));
      assert |kernels| * |ns| == |kernels| * (|ns| - 1) + |kernels| by {
        MulSucc(|kernels|, |ns| - 1);
      }
    }
  }

  lemma MulSucc(a: nat, b: nat)
    ensures a * (b + 1) == a * b + a
  {
  }

  lemma {:induction false} CountStartsEnds(n: nat)
    ensures CountOnNode(Starts(n)) == 0 && CountOnNode(Ends(n)) == 0
  {
    if n > 0 {
      CountStartsEnds(n - 1);
      CountAppend(Starts(n - 1), [ProjectStart(n - 1)]);
      CountAppend(Ends(n - 1), [ProjectEnd(n - 1)]);
      assert [ProjectStart(n - 1)][..0] == [] && [ProjectEnd(n - 1)][..0] == [];
    }
  }

  /**
   * The crawl opens with every kernel's `on_project_start` in list order,
   * closes with every kernel's `on_project_end`, and calls `on_node`
   * (number of kernels) × (number of nodes) times.
   */
  lemma CrawlShape(kernels: seq<Kernel>, list: Listing, roots: seq<Tree>)
    ensures var r := Crawl(kernels, list, roots);
      var n := |kernels|;
      |r| >= 2 * n &&
      (forall k :: 0 <= k < n ==> r[k] == ProjectStart(k) && r[|r| - n + k] == ProjectEnd(k)) &&
      r[n..|r| - n] == Blocks(kernels, list, PreorderAll(roots)) &&
      CountOnNode(r) == n * |PreorderAll(roots)|
  {
    var n := |kernels|;
    var walk := WalkAll(kernels, list, roots);
    WalkAllIsPreorder(kernels, list, roots);
    CountBlocks(kernels, list, PreorderAll(roots));
    Framed(n, walk);
  }

  /** Starts, then `walk`, then ends. */
  lemma Framed(n: nat, walk: seq<Event>)
    ensures var r := Starts(n) + walk + Ends(n);
      |r| >= 2 * n &&
      (forall k :: 0 <= k < n ==> r[k] == ProjectStart(k) && r[|r| - n + k] == ProjectEnd(k)) &&
      r[n..|r| - n] == walk &&
      CountOnNode(r) == CountOnNode(walk)
  {
    FramedEnds(n, walk);
    FramedCount(n, walk);
  }

  lemma FramedEnds(n: nat, walk: seq<Event>)
    ensures var r := Starts(n) + walk + Ends(n);
      |r| == |walk| + 2 * n && r[n..|r| - n] == walk &&
      forall k :: 0 <= k < n ==> r[k] == ProjectStart(k) && r[|r| - n + k] == ProjectEnd(k)
  {
    var r := Starts(n) + walk + Ends(n);
    assert r[n..|r| - n] == walk;
    forall k | 0 <= k < n ensures r[k] == ProjectStart(k) && r[|r| - n + k] == ProjectEnd(k) {
      assert r[k] == Starts(n)[k];
      assert r[|r| - n + k] == Ends(n)[k];
    }
  }

  lemma FramedCount(n: nat, walk: seq<Event>)
    ensures CountOnNode(Starts(n) + walk + Ends(n)) == CountOnNode(walk)
  {
    CountStartsEnds(n);
    CountAppend(Starts(n), walk);
    CountAppend(Starts(n) + walk, Ends(n));
  }
}
