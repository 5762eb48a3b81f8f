# ylab-common-scripts: directory-hierarchy crawler and helpers, in Dafny

This project models the core of `ylabcommon`, a set of shared analysis scripts for laboratory data. It proves properties of that model.

**The generic hierarchy engine** (`ylabcommon/analysis/crawler.py`).
- `build_tree_generic` descends from a root directory through an ordered list of level rules (`LevelSpec`). Each rule has a glob pattern, a directory filter, a preprocess step that may rename the directory, and a payload loader.
- It builds a forest of `HierNode`s. Each node has a name, path, level, parent back-link, children and a payload.
- `GenericCrawler.crawl_from_nodes` walks that forest in pre-order. It dispatches the project-start, node, file and project-end hooks of an ordered list of kernels.
- `HierNode.ancestor` finds the nearest node of a level on the parent chain. The `cond`/`mouse`/`day`/`cell` accessors are built on it.
- The shipped rules are `make_cond_spec`, `make_mouse_spec`, `make_day_spec` and `make_cell_spec`. They use the basic name filter, the day-renaming step and the day payload.

**Smaller helpers modelled beside it:**
- `deepupdate`, the recursive in-place dictionary merge (`util.py`);
- the project-name, cache-name, condition and phase/session string rules of `pd_util.py`;
- backslash-to-slash path conversion and base-drive selection (`file_util.py`);
- the DeepLabCut body-part tables and their lookups, and the raw-video path list (`models/parameters/behavior.py`);
- the Google Drive folder-ID parser, the ZIP-name filter and the dataset name (`util_download_drive_folder.py`).

**Module layout:**
- `Wrappers`: `Option`, and `Result` with Python's exceptions.
- `Text`: Python's `str.find`/`split`/`replace`/`lower`, string ordering, sorting a set of names, and `*`-only glob matching.
- `PosixPath`: `os.path.basename`/`dirname`/`join`.
- `FileSystem`: an in-memory disk, a map from paths (sequences of names) to directory/file entries, with a `Disk` class whose `Rename` moves a subtree.
- `BuildSpec` and `LevelSpecs`: the tree builder as pure functions, and the shipped level rules.
- `CrawlSpec`: the crawl as an event trace.
- `Crawler`: the imperative builder and crawler over `HierNode` objects, proved against `BuildSpec` and `CrawlSpec`.
- `Util`, `PdUtil`, `FileUtil`, `Behavior`, `DriveFolder`: the helpers.

The kernels' hooks are modelled by the events they receive. The crawler appends one event per hook call to a `log`. Each kernel's file pattern is a function of the node's level and path.

## Model

| member | source | states |
|---|---|---|
| Crawler.HierNode.constructor | ylabcommon/analysis/crawler.py:21-38 | a new node holds the given name, path, level, parent and payload, with no children, and its parent chain is well formed |
| Crawler.HierNode.Adopt | ylabcommon/analysis/crawler.py:125 | assigning `children` makes the node's tree the node's fields over its children's trees, and every child's parent is this node |
| Crawler.HierNode.ValidChildren | ylabcommon/analysis/crawler.py:21-38 | in a well-formed node every child is well formed and disjoint from its parent, and the node's tree lists its children's trees |
| Crawler.HierNode.ChainLinks | ylabcommon/analysis/crawler.py:44-48 | each node on the chain from a node upwards has the next one as its parent |
| Crawler.Nearest | ylabcommon/analysis/crawler.py:40-49 | null exactly when no node on the chain has the level; otherwise a node of that level with no node of that level before it |
| Crawler.HierNode.Ancestor | ylabcommon/analysis/crawler.py:40-49 | the loop returns the nearest node of the level from the node itself upwards, or null; asked for its own level, a node returns itself |
| Crawler.HierNode.Cond | ylabcommon/analysis/crawler.py:51-63 | the `cond` accessor of behaviour and slice nodes is the nearest `cond` ancestor |
| Crawler.HierNode.Mouse | ylabcommon/analysis/crawler.py:264-266 | the `mouse` accessor of behaviour nodes is the nearest `mouse` ancestor |
| Crawler.HierNode.Day | ylabcommon/analysis/crawler.py:264-266 | the `day` accessor of behaviour nodes is the nearest `day` ancestor |
| Crawler.HierNode.Cell | ylabcommon/analysis/crawler.py:369-371 | the `cell` accessor of slice nodes is the nearest `cell` ancestor |
| Crawler.TreesOf | ylabcommon/analysis/crawler.py:37 | the value trees of a node list, one per node, in order |
| Crawler.TreesOfAppend | ylabcommon/analysis/crawler.py:126 | appending a node appends its tree |
| Crawler.PreprocessDir | ylabcommon/analysis/crawler.py:119 | the preprocess step returns the renamed path and leaves the disk as the rule's rename specifies |
| Crawler.RootsExtend | ylabcommon/analysis/crawler.py:124-126 | appending a well-formed node whose parent is the level's parent keeps the level's node list well formed |
| Crawler.RemainsStep | ylabcommon/analysis/crawler.py:112-126 | one loop step keeps the level's result equal to the nodes built so far plus what the remaining candidates build; a skipped candidate adds nothing |
| Crawler.WalkAllSnoc | ylabcommon/analysis/crawler.py:241-242 | walking one more child extends the trace by that child's walk |
| Crawler.BuildLevelNodes | ylabcommon/analysis/crawler.py:105-128 | `_build_level` returns nodes whose trees and final disk are those of the pure level builder, all with the given parent |
| Crawler.BuildEachNodes | ylabcommon/analysis/crawler.py:112-128 | the loop over the sorted candidates yields the pure builder's trees and disk |
| Crawler.BuildCandidate | ylabcommon/analysis/crawler.py:113-126 | one candidate is skipped when it is not a directory or fails the filter; otherwise its node is appended, keeping the loop invariant |
| Crawler.BuildNode | ylabcommon/analysis/crawler.py:119-126 | a candidate becomes a node whose tree and resulting disk are those of the pure step: renamed path, payload, level and children |
| Crawler.MakeNode | ylabcommon/analysis/crawler.py:124-125 | the factory's node takes its name from the renamed path and the rule's level, with children built one level deeper under that path |
| Crawler.BuildTreeGeneric | ylabcommon/analysis/crawler.py:93-130 | `build_tree_generic` returns root nodes with no parent whose trees and final disk are those of the pure builder |
| Crawler.GenericCrawler.constructor | ylabcommon/analysis/crawler.py:194-204 | the crawler keeps the kernel list, analysis parameter, project directory and overwrite flag |
| Crawler.GenericCrawler.CrawlFromNodes | ylabcommon/analysis/crawler.py:206-226 | the hooks called are exactly the crawl trace of the roots' trees |
| Crawler.GenericCrawler.StartHooks | ylabcommon/analysis/crawler.py:217-218 | each kernel's `on_project_start`, once, in list order |
| Crawler.GenericCrawler.EndHooks | ylabcommon/analysis/crawler.py:225-226 | each kernel's `on_project_end`, once, in list order |
| Crawler.GenericCrawler.WalkNode | ylabcommon/analysis/crawler.py:228-242 | `_walk_node` emits the node's walk: its own block of hooks, then its children's walks in order |
| Crawler.GenericCrawler.WalkEach | ylabcommon/analysis/crawler.py:221-222 | walking a list of nodes emits their walks concatenated |
| Crawler.GenericCrawler.NodeHooks | ylabcommon/analysis/crawler.py:230-238 | at a node, the kernels act one after another |
| Crawler.GenericCrawler.KernelHooks | ylabcommon/analysis/crawler.py:231-238 | one kernel's `on_node`, then `on_file` for each sorted match of its pattern, none for an empty pattern |
| Crawler.GenericCrawler.FileHooks | ylabcommon/analysis/crawler.py:235-238 | `on_file` once per matched file, in sorted order |
| BuildSpec.Preprocess | ylabcommon/analysis/crawler.py:119 | the new path is the old one with the rule's new name; an unchanged name leaves the disk as it was; undefined exactly when a rename would collide with an existing entry |
| BuildSpec.Step | ylabcommon/analysis/crawler.py:119-125 | a node takes its name and path from the renamed directory and its level from the rule for its depth |
| BuildSpec.BuildLevelConforms | ylabcommon/analysis/crawler.py:105-128 | every node `_build_level` (`BuildLevel`) returns at a depth was made by that depth's rule from a directory under the base path, and so was each of its children, one depth further down |
| BuildSpec.BuildEachConforms | ylabcommon/analysis/crawler.py:112-126 | the same, for the nodes the candidate loop (`BuildEach`) builds from the candidates after a position |
| BuildSpec.StepConforms | ylabcommon/analysis/crawler.py:119-125 | a node built from an accepted directory conforms to the rules from its depth down |
| BuildSpec.Height | ylabcommon/analysis/crawler.py:37 | the height of a tree is at least one |
| BuildSpec.HeightAll | ylabcommon/analysis/crawler.py:37 | a forest is at least as high as its first tree |
| BuildSpec.ConformsHeight | ylabcommon/analysis/crawler.py:106-107 | a tree built from depth `d` is no higher than the number of rules left |
| BuildSpec.ConformsHeightAll | ylabcommon/analysis/crawler.py:106-107 | the same for a forest |
| BuildSpec.LastLevelLeaves | ylabcommon/analysis/crawler.py:106-107 | nodes built by the last rule have no children |
| BuildSpec.BuildTreeHeight | ylabcommon/analysis/crawler.py:93-130 | no tree of the forest `build_tree_generic` (`BuildTree`) returns is higher than the number of rules |
| BuildSpec.BuildEachPicked | ylabcommon/analysis/crawler.py:112-126 | over distinct candidates on the disk, with a filter that looks only at the directory (`Local`): candidate `k` becomes a node exactly when it is a directory the filter accepts on the disk as it was before the loop; node `j` comes from candidate `picked[j]` with its renamed name and path (`Picks`); the picks strictly increase |
| BuildSpec.AcceptedPicked | ylabcommon/analysis/crawler.py:113-126 | the same, when the first remaining candidate is an accepted directory: it becomes the first node |
| BuildSpec.PicksCons | ylabcommon/analysis/crawler.py:124-126 | an accepted candidate's node in front of the later candidates' nodes, which are judged alike on the disk before and after its step |
| BuildSpec.LaterUntouched | ylabcommon/analysis/crawler.py:119-125 | after an accepted candidate is renamed and its subtree built, every later candidate is still on the disk, is a directory exactly when it was before, and gets the same answer from a local filter |
| BuildSpec.BuildLevelFrame | ylabcommon/analysis/crawler.py:105-128 | building a level changes the disk only strictly below the base directory |
| BuildSpec.BuildEachFrame | ylabcommon/analysis/crawler.py:112-126 | the candidate loop changes the disk only strictly below the base directory |
| BuildSpec.StepFrame | ylabcommon/analysis/crawler.py:119-125 | one accepted candidate changes the disk only at and below its old path and at and below its renamed path |
| BuildSpec.GlobDistinct | ylabcommon/analysis/crawler.py:112 | `sorted(base_path.glob(...))` lists each entry once |
| BuildSpec.BuildLevelSorted | ylabcommon/analysis/crawler.py:105-128 | with a local filter, the level's nodes are exactly the candidates of the sorted glob that are directories the filter accepts, one node each, in the glob's order, each with its renamed name and path |
| LevelSpecs.DayName | ylabcommon/analysis/crawler.py:308-319 | the day rename gives the name or the name with `_` appended |
| LevelSpecs.SplitUnderscore | ylabcommon/analysis/crawler.py:309 | `len(name.split("_")) < 2` holds exactly when the name has no `_` |
| LevelSpecs.ContainsAppended | ylabcommon/analysis/crawler.py:311 | a name with `_` appended contains `_` |
| LevelSpecs.DayNameRenames | ylabcommon/analysis/crawler.py:308-319 | a name is kept exactly when it contains `_`, otherwise it gains a trailing `_`; the result always contains `_` |
| LevelSpecs.DayNameIdempotent | ylabcommon/analysis/crawler.py:308-319 | renaming twice gives the same name as renaming once |
| LevelSpecs.DayNameExamples | ylabcommon/analysis/crawler_test.py:114-119 | `day001` becomes `day001_` and `day002_` is untouched |
| LevelSpecs.NoUnderscore | ylabcommon/analysis/crawler.py:309 | a name without the character `_` does not contain the string `_` |
| LevelSpecs.DayPayload | ylabcommon/analysis/crawler.py:321-329 | the payload has the single key `exp_param`; through `ExpParam` it is None exactly when the capability is missing or raises, else the capability's value |
| LevelSpecs.MadeVisible | ylabcommon/analysis/crawler.py:245-251 | `_filter_dir_basic` (`FilterDirBasic`) accepts only directories whose name does not start with `_` or `@`, so every node a rule with that filter makes comes from such a directory |
| LevelSpecs.CellNode | ylabcommon/analysis/crawler.py:374-388 | a node made by `make_cell_spec` (`CellSpec`) has level `cell`, keeps its directory name, is visible and has `XY` in its name |
| LevelSpecs.BehaviorTree | ylabcommon/analysis/crawler_test.py:126-166 | the cond/mouse/day rules build `cond*` nodes over mouse nodes over `day*` nodes with `_` in the name and an `exp_param` payload, and nothing below them |
| LevelSpecs.CondShape | ylabcommon/analysis/crawler.py:270-283 | a node built by `make_cond_spec` (`CondSpec`) is a visible `cond*` node with an empty payload over mouse nodes |
| LevelSpecs.MouseShape | ylabcommon/analysis/crawler.py:285-299 | a node built by `make_mouse_spec` (`MouseSpec`) is a visible node with an empty payload over day nodes |
| LevelSpecs.DayNameKeeps | ylabcommon/analysis/crawler.py:308-319 | renaming keeps a visible `day*` name visible and starting with `day`, and gives it a `_` |
| LevelSpecs.DayShape | ylabcommon/analysis/crawler.py:301-337 | a node built by `make_day_spec` (`DaySpec`) is a leaf with a visible `day*` name containing `_` and the day payload |
| LevelSpecs.BasicFilterLocal | ylabcommon/analysis/crawler.py:245-251 | `_filter_dir_basic` looks only at the directory itself, so the builder's exact-selection lemma applies to every shipped rule |
| LevelSpecs.CondMade | ylabcommon/analysis/crawler.py:270-282 | a node made by the cond rule keeps its visible directory name, which starts with `cond` |
| LevelSpecs.DayMade | ylabcommon/analysis/crawler.py:301-337 | a node made by the day rule has a visible name that starts with `day` and contains `_` |
| CrawlSpec.FileEvents | ylabcommon/analysis/crawler.py:235-238 | one `on_file` event per file, in order |
| CrawlSpec.Starts | ylabcommon/analysis/crawler.py:217-218 | one start event per kernel, in kernel order |
| CrawlSpec.Ends | ylabcommon/analysis/crawler.py:225-226 | one end event per kernel, in kernel order |
| CrawlSpec.BlocksAppend | ylabcommon/analysis/crawler.py:228-242 | the node blocks of two node lists concatenate |
| CrawlSpec.WalkIsPreorder | ylabcommon/analysis/crawler.py:228-242 | walking a tree emits the node blocks of its pre-order listing |
| CrawlSpec.WalkAllIsPreorder | ylabcommon/analysis/crawler.py:221-222 | walking the roots emits the node blocks of the forest's pre-order listing |
| CrawlSpec.CountAppend | ylabcommon/analysis/crawler.py:231 | the number of `on_node` events adds up over concatenation |
| CrawlSpec.CountFiles | ylabcommon/analysis/crawler.py:235-238 | file hooks contain no `on_node` event |
| CrawlSpec.CountNodeEvents | ylabcommon/analysis/crawler.py:230-238 | a node's block holds one `on_node` event per kernel |
| CrawlSpec.CountSnoc | ylabcommon/analysis/crawler.py:230-231 | appending a block with one `on_node` adds one |
| CrawlSpec.CountKernelEvents | ylabcommon/analysis/crawler.py:231-238 | one kernel's hooks at a node (`KernelEvents`: `on_node`, then its files) hold exactly one `on_node` |
| CrawlSpec.CountBlocks | ylabcommon/analysis/crawler.py:228-242 | the blocks of `n` nodes hold (number of kernels) × `n` `on_node` events |
| CrawlSpec.CountStartsEnds | ylabcommon/analysis/crawler.py:217-226 | start and end events are not `on_node` events |
| CrawlSpec.CrawlShape | ylabcommon/analysis/crawler_test.py:146-166 | a crawl (`Crawl`) opens with every kernel's start in order, closes with every kernel's end, has the pre-order walk in between, and fires `on_node` (kernels × nodes) times |
| CrawlSpec.Framed | ylabcommon/analysis/crawler.py:206-226 | starts, walk, ends: the frame is in place, the walk is in between, and the walk holds all the `on_node` events |
| CrawlSpec.FramedEnds | ylabcommon/analysis/crawler.py:216-226 | the start and end events sit in kernel order at the two ends of the trace |
| CrawlSpec.FramedCount | ylabcommon/analysis/crawler.py:216-226 | the frame adds no `on_node` event |
| FileSystem.WithName | ylabcommon/analysis/crawler.py:311 | `with_name` changes the last component only |
| FileSystem.ChildMatch | ylabcommon/analysis/crawler.py:112 | a glob match is one level below the base |
| FileSystem.Glob | ylabcommon/analysis/crawler.py:112 | `sorted(base.glob(pattern))`: exactly the matching children of the base, in strictly increasing name order |
| FileSystem.ChildPaths | ylabcommon/analysis/crawler.py:112 | one child path per name, in order, sorted when the names are |
| FileSystem.GlobMembers | ylabcommon/analysis/crawler.py:112 | every listed child matches the pattern |
| FileSystem.ChildOfName | ylabcommon/analysis/crawler.py:112 | the child path of a matching name is a glob match |
| FileSystem.GlobComplete | ylabcommon/analysis/crawler.py:112 | every glob match is listed |
| FileSystem.Renamed | ylabcommon/analysis/crawler.py:315 | a rename keeps entries outside the moved directory, moves every entry below it to the same place under the new path, and adds nothing else |
| FileSystem.MoveInjective | ylabcommon/analysis/crawler.py:315 | a rename maps distinct entries to distinct entries |
| FileSystem.MovedBelow | ylabcommon/analysis/crawler.py:315 | moved entries end up below the new path |
| FileSystem.Disk.constructor | ylabcommon/analysis/crawler.py:112-115 | the disk holds the given entries |
| FileSystem.Disk.Rename | ylabcommon/analysis/crawler.py:315 | `old.rename(new)` leaves the disk as the pure rename specifies |
| Text.FindFrom | ylabcommon/pd_util.py:50 | the first occurrence at or after a position, or -1 when there is none |
| Text.Find | ylabcommon/pd_util.py:50 | `str.find`: -1 exactly when the pattern is absent, else its first occurrence |
| Text.Split | ylabcommon/pd_util.py:55-61 | `str.split(sep)`: at least one piece, and no piece contains the separator |
| Text.SplitJoin | ylabcommon/pd_util.py:55-61 | joining the pieces with the separator gives the string back |
| Text.SplitAbsent | ylabcommon/pd_util.py:55-61 | a string splits into itself alone exactly when it lacks the separator |
| Text.SplitAfterFirst | ylabcommon/util_download_drive_folder.py:53 | when no separator starts inside `a`, `a + sep + b` splits into `a` followed by the pieces of `b` |
| Text.SplitAfterPrefix | ylabcommon/pd_util.py:55-61 | a prefix without the separator's first character is the first piece |
| Text.SplitNoFirstChar | ylabcommon/pd_util.py:55-61 | a string without the separator's first character is not split |
| Text.Lower | ylabcommon/util_download_drive_folder.py:60 | `str.lower`: same length, ASCII capitals lowered, everything else kept |
| Text.ReplaceCharAt | ylabcommon/file_util.py:37 | replacing one character by another keeps the length and maps each position |
| Text.ReplaceFirst | ylabcommon/file_util.py:37 | replacing starts at the first occurrence and keeps the text before it |
| Text.LexIrreflexive | ylabcommon/analysis/crawler.py:112 | string order is irreflexive |
| Text.LexAsymmetric | ylabcommon/analysis/crawler.py:112 | string order is asymmetric |
| Text.LexTransitive | ylabcommon/analysis/crawler.py:112 | string order is transitive |
| Text.LexTotal | ylabcommon/analysis/crawler.py:112 | any two distinct strings are ordered |
| Text.LeastExists | ylabcommon/analysis/crawler.py:112 | a non-empty set of names has a least element |
| Text.SortedSet | ylabcommon/analysis/crawler.py:112 | `sorted` of a set of names: strictly increasing, with the same elements |
| Text.SortedUnique | ylabcommon/analysis/crawler.py:112 | two strictly increasing lists with the same elements are equal |
| Text.MatchStarAll | ylabcommon/analysis/crawler.py:296 | `*` matches every name |
| Text.MatchPrefixStar | ylabcommon/analysis/crawler.py:279 | `lit*` matches exactly the names starting with `lit` |
| Text.MatchLeadingStar | ylabcommon/analysis/crawler.py:384 | `*p` matches a name exactly when `p` matches one of its suffixes |
| Text.MatchInfix | ylabcommon/analysis/crawler.py:384 | `*lit*` matches exactly the names containing `lit` |
| Util.Merge | ylabcommon/util.py:4-17 | merged keys are both key sets; base-only keys are kept; a non-mapping pair is overwritten; a pair of mappings is merged recursively, so the base's other nested keys survive |
| Util.MergeEmpty | ylabcommon/util.py:8 | merging an empty dict changes nothing |
| Util.MergeIntoEmpty | ylabcommon/util.py:8-16 | merging into an empty dict copies the other |
| Util.MergeShallow | ylabcommon/util.py:15-16 | with no pair of mappings, the merge is a plain `update` |
| Util.MergeCovers | ylabcommon/util.py:8-16 | every key of `other`, at every depth, is present in the result; non-mapping values are `other`'s |
| Util.CoversSelf | ylabcommon/util.py:8-16 | a dict covers itself |
| Util.MergeSelf | ylabcommon/util.py:8-16 | merging a dict into itself changes nothing |
| Util.MergeIdempotent | ylabcommon/util.py:8-16 | merging the same dict twice is merging once |
| Util.MergeExample | ylabcommon/util_test.py:34-44 | `{"a":1,"b":{"c":2}}` merged with `{"b":{"d":3},"e":4}` is `{"a":1,"b":{"c":2,"d":3},"e":4}` |
| Util.Without | ylabcommon/util.py:8 | the entries of `other` not yet visited |
| Util.MergeStep | ylabcommon/util.py:8-16 | visiting one more key extends the merge by that key's entry |
| Util.Dict.constructor | ylabcommon/util.py:4 | the dict holds the given entries |
| Util.Dict.DeepUpdate | ylabcommon/util.py:4-17 | `deepupdate` updates the dict in place to the merge and returns the same object |
| PdUtil.GetPrjName | ylabcommon/pd_util.py:8-14 | ValueError exactly when the base name is not `df_individual_analyzed_merged.h5`; the name has no `/` |
| PdUtil.PrjNameOfLayout | ylabcommon/pd_util_test.py:30-32 | `<root>/<prj>/<paradigm>/df_individual_analyzed_merged.h5` gives `<prj>_<paradigm>` |
| PdUtil.CacheFileName | ylabcommon/pd_util.py:37-40 | raises exactly when the project name does; the cache file's base name is `_cache_<project>.h5` |
| PdUtil.CacheFileInDir | ylabcommon/pd_util.py:37-40 | the cache file lies directly in `cache_path`: the path, then `/` unless it is empty or already ends in `/`, then `_cache_<project>.h5` |
| PdUtil.CacheLeaf | ylabcommon/pd_util.py:37-40 | joining a name without `/` onto the cache path gives that base name |
| PdUtil.CondOfFirst | ylabcommon/pd_util.py:48-52 | `set_cond` (`CondOf`): `x` is kept when no key occurs past index 0; otherwise the first key, in key order, that occurs past index 0 |
| PdUtil.CondOfNone | ylabcommon/pd_util.py:49-52 | when no key occurs in `x` past index 0, the loop runs out and `x` is returned |
| PdUtil.CondOfPick | ylabcommon/pd_util.py:49-51 | the first key, in key order, that occurs in `x` past index 0 is the one returned |
| PdUtil.CondPrefixSkipped | ylabcommon/pd_util.py:50 | a key that occurs first at index 0 is not chosen |
| PdUtil.SetCond | ylabcommon/pd_util.py:48-52 | the loop returns the condition rule's value |
| PdUtil.ParseInt | ylabcommon/pd_util.py:57-61 | `int(s)` raises ValueError, and does so on the empty string |
| PdUtil.DecimalString | ylabcommon/pd_util.py:57-61 | `str(n)` is a non-empty string of digits |
| PdUtil.DecimalValue | ylabcommon/pd_util.py:57-61 | the digits of `str(n)` read back as `n` |
| PdUtil.ParseDecimal | ylabcommon/pd_util.py:57-61 | `int(str(n)) == n`, and `int("-" + str(n)) == -n` |
| PdUtil.PhaseString | ylabcommon/pd_util.py:55-56 | IndexError exactly when the day has no `phase`; the phase string has no `S` |
| PdUtil.SplitCount | ylabcommon/pd_util.py:58-59 | fewer than two pieces exactly when the separator is absent |
| PdUtil.Phase | ylabcommon/pd_util.py:57-62 | a day without `phase` raises IndexError |
| PdUtil.Session | ylabcommon/pd_util.py:60-61 | a day without `phase` raises IndexError |
| PdUtil.DigitsAvoid | ylabcommon/pd_util.py:55-61 | digits contain no `p`, `S` or `-` |
| PdUtil.SplitTwo | ylabcommon/pd_util.py:55-61 | `a + sep + b` splits into `[a, b]` when neither holds the separator's first character |
| PdUtil.DayParts | ylabcommon/pd_util.py:55-61 | for any day whose split on `phase` and then on `S` has at least two pieces, the phase string is the first `S` piece and the session the parsed second one; a phase string without `-` gives the parsed number |
| PdUtil.SubPhaseSum | ylabcommon/pd_util.py:57-62 | a phase string whose first two pieces on `-` are `x` and `y` gives the phase `x + y`, whatever follows |
| PdUtil.DayWithSubPhase | ylabcommon/pd_util.py:55-62 | `<prefix>phase<a>-<b>S<c>`, whose written `phase` is the first, has phase string `<a>-<b>`, phase `a + b` and session `c` |
| PdUtil.SubPhaseSplits | ylabcommon/pd_util.py:55-61 | how such a day string splits at `phase`, `S` and `-` |
| PdUtil.DayWithoutSubPhase | ylabcommon/pd_util.py:55-62 | `<prefix>phase<a>S<c>`, whose written `phase` is the first, has phase `a` and session `c` |
| PosixPath.LastIndexOf | ylabcommon/pd_util.py:13 | `rfind` of one character: -1 or the last index holding it |
| PosixPath.BaseName | ylabcommon/pd_util.py:12-13 | `basename` is a suffix of the path without `/` |
| PosixPath.StripTrailing | ylabcommon/pd_util.py:13 | `rstrip` gives a prefix without the trailing character, and only that character was removed |
| PosixPath.DirName | ylabcommon/pd_util.py:13 | `dirname` is a prefix of the path |
| PosixPath.LastSlash | ylabcommon/pd_util.py:13 | the last `/` of `a/b` is the one between them when `b` has none |
| PosixPath.BaseNameOf | ylabcommon/pd_util.py:12 | the base name of `a/b` is `b` |
| PosixPath.DirNameOf | ylabcommon/pd_util.py:13 | the directory of `a/g/b` is `a/g` |
| PosixPath.JoinPathParts | ylabcommon/pd_util.py:37-40 | `os.path.join(a, b)` (`JoinPath`): an absolute `b` replaces `a`; otherwise `a` then `b` with exactly one `/` between them when `a` is not empty |
| PosixPath.JoinBaseName | ylabcommon/pd_util.py:37-40 | `join(a, b)` has base name `b` when `b` has no `/` |
| PosixPath.LastIndexOfNone | ylabcommon/pd_util.py:13 | `rfind` gives -1 on a string without the character |
| FileUtil.ReplaceYen | ylabcommon/file_util.py:33-37 | length kept, each backslash becomes `/`, every other character stays in place, and no backslash remains |
| FileUtil.ReplaceYenKeeps | ylabcommon/file_util.py:37 | a path without backslashes is unchanged |
| FileUtil.ReplaceYenIdempotent | ylabcommon/file_util.py:37 | converting twice is converting once |
| FileUtil.ReplaceYenConcat | ylabcommon/file_util.py:37 | conversion works piece by piece |
| FileUtil.ReplaceYenExample | ylabcommon/file_util_test.py:41-44 | `some\\folder\\file.txt` becomes `some//folder//file.txt` |
| FileUtil.InitBaseDrive | ylabcommon/file_util.py:17-31 | ValueError when the platform has no entry or its path does not exist; otherwise exactly `prefix[platform]` |
| FileUtil.InitBaseDriveExample | ylabcommon/file_util_test.py:51-56 | on Linux with every path reachable, the Linux entry is chosen |
| Behavior.TablesConsistent | ylabcommon/models/parameters/behavior.py:44-103 | the three tables have exactly the versions 2020, 2025 and 2026, and every centre index is in bounds of its version's part list |
| Behavior.GetDlcBodyPartsAll | ylabcommon/models/parameters/behavior.py:114-115 | the version's part list, or KeyError for any version without an entry |
| Behavior.PartsAt | ylabcommon/models/parameters/behavior.py:117-123 | `get_dlc_parts_for_head_center`/`_body_center` (`GetDlcPartsForHeadCenter`/`ForBodyCenter` call it): KeyError for an unlisted version, else as many parts as indices, element `j` being the version's part at the table's `j`-th index |
| Behavior.Gather | ylabcommon/models/parameters/behavior.py:119 | element `j` is `parts[idx[j]]` |
| Behavior.CenterParts2020 | ylabcommon/models/parameters/behavior.py:45-103 | the 2020 head centre is the ears and snout; its body centre is centroid, laterals and tail base |
| Behavior.HeadCenterParts2026 | ylabcommon/models/parameters/behavior.py:45-98 | the 2026 head centre is head midpoint, ears, eyes and nose |
| Behavior.VideoFullPathShape | ylabcommon/models/parameters/behavior.py:276-284 | a video path (`VideoFullPath`) has no backslash when the base directory has none, and a relative entry keeps the base directory in front |
| Behavior.VideoInfo.constructor | ylabcommon/models/parameters/behavior.py:276-284 | the info holds the given raw video list |
| Behavior.VideoInfo.GetVideoFullPathList | ylabcommon/models/parameters/behavior.py:276-284 | as many paths as raw videos, in order; element `i` is the base directory joined with the converted `i`-th entry |
| DriveFolder.ExtractFolderId | ylabcommon/util_download_drive_folder.py:51-54 | ValueError exactly when the URL lacks `folders/`; the ID has no `?` and no `folders/` |
| DriveFolder.SplitSeveral | ylabcommon/util_download_drive_folder.py:53 | a URL holding `folders/` splits into at least two pieces |
| DriveFolder.SplitFirstPrefix | ylabcommon/util_download_drive_folder.py:53 | the first piece of a split is a prefix |
| DriveFolder.PrefixAvoids | ylabcommon/util_download_drive_folder.py:53 | a prefix of a string without `folders/` has none either |
| DriveFolder.NoCharPattern | ylabcommon/util_download_drive_folder.py:53 | a string without the pattern `?` has no `?` |
| DriveFolder.FolderIdOfUrl | ylabcommon/util_download_drive_folder.py:53 | `<prefix>folders/<id>?<query>` yields `<id>` whenever the written `folders/` is the first one and the ID holds no `?` and no `folders/`; the query is arbitrary |
| DriveFolder.FolderIdNoQuery | ylabcommon/util_download_drive_folder.py:53 | `<prefix>folders/<id>`, with no `?` after the ID, yields `<id>` when the written `folders/` is the first |
| DriveFolder.CharAbsent | ylabcommon/util_download_drive_folder.py:53 | an ID without `?` does not hold the pattern `?`, so `split("?")` leaves it whole |
| DriveFolder.FirstPieceKeepsId | ylabcommon/util_download_drive_folder.py:53 | the piece of `<id>?<query>` before the next `folders/` still starts with `<id>?` |
| DriveFolder.NoEarlySeparator | ylabcommon/util_download_drive_folder.py:53 | in `<id>?<query>`, no `folders/` starts within the ID or at the `?` when the ID holds neither |
| DriveFolder.ZipFiles | ylabcommon/util_download_drive_folder.py:60 | a listing without `files` gives no archives |
| DriveFolder.Filter | ylabcommon/util_download_drive_folder.py:60 | a filter keeps at most the list's entries |
| DriveFolder.FilterMembers | ylabcommon/util_download_drive_folder.py:60 | an entry is kept exactly when it is listed and accepted |
| DriveFolder.FilterAppend | ylabcommon/util_download_drive_folder.py:60 | filtering preserves order across concatenation |
| DriveFolder.FilterIdempotent | ylabcommon/util_download_drive_folder.py:60 | filtering twice is filtering once |
| DriveFolder.KeepZipsProperties | ylabcommon/util_download_drive_folder.py:60 | the filter (`KeepZips` over `IsZipName`) keeps exactly the entries whose lower-cased name ends with `.zip`, in order, and a second pass removes nothing |
| DriveFolder.ZipNameOf | ylabcommon/util_download_drive_folder.py:60 | names ending in `.zip` and in `.ZIP` both count |
| DriveFolder.ZipSuffix | ylabcommon/util_download_drive_folder.py:60 | a name ending in `.zip` or `.ZIP` lower-cases to one ending in `.zip` |
| DriveFolder.DatasetNameKeeps | ylabcommon/util_download_drive_folder.py:125 | `DatasetName` (`replace(".zip", "")`) leaves a name without `.zip` as it is |
| DriveFolder.DatasetNameOfArchive | ylabcommon/util_download_drive_folder.py:125 | `<stem>.zip` whose final `.zip` is its only one gives `<stem>` |

## Left out

- Logging: the duck-typed `log_warn`/`log_exception` calls (`crawler.py:313-317,326-328`) and their message text are not modelled. The day payload's capability `get_exp_param` is an optional function returning a value or an exception.
- Rename collisions: `_preprocess_day` has no rule for a target that already exists, such as sibling directories `day1` and `day1_`. The pure builder yields no result in that case, and the imperative builder requires a result.
- `setattr` property injection (`crawler.py:51-63,264-266,369-371`): modelled as the fixed accessors `Cond`, `Mouse`, `Day` and `Cell`. A node's class is its `variant`.
- LevelSpecs.FilterDirBasic: an empty directory name is rejected, where `name[0]` would raise IndexError (`crawler.py:249`); a directory on a real file system always has a non-empty name.
- Globbing: `Path.glob` is modelled on one path component, with `*` as the only wildcard. All shipped patterns are of that form.
- `is_dir` and the filter are read on the disk as it stands when the candidate is visited. The candidates are listed once, before any rename, as in the source.
- BuildSpec.BuildLevelSorted: the exact selection is stated for filters that look only at the directory and what lies below it (`Local`), as `_filter_dir_basic` does; a filter that reads elsewhere on the disk could see an earlier sibling's rename.
- `CrawlContext` (`crawler.py:137-147`): it is built but its contents reach the hooks only as arguments that are not modelled. Kernel hooks that raise are not modelled.
- Kernels: the default `GenericKernel` methods are no-ops. A kernel is modelled by its file pattern, and its hooks by the events they record.
- Crawler.GenericCrawler.CrawlFromNodes: the hooks are assumed not to change the disk. Every listing is taken from the disk as it stands when the crawl starts, whereas the source globs lazily at each node, after that kernel's `on_node`, so files a hook writes during the crawl are not seen. Each kernel's file pattern is a stateless function of the node's level and path, not of kernel state. The method also takes a ghost footprint parameter, which the source does not have.
- Util.Dict.DeepUpdate: nested dicts are values, so aliasing between nested dicts shared by `dict_base` and other objects is not modelled.
- Util.Value: scalar values are integers. Dicts are unordered maps here: the key order of the result, where new keys follow `other`'s iteration order (`util.py:8,16`), is not modelled; dict `==` ignores it.
- PdUtil.ParseInt: `int()` is modelled for an optional sign followed by ASCII digits. Surrounding whitespace, `_` separators and non-ASCII digits are not accepted.
- Text.Lower: lowers ASCII letters only.
- Behavior.VideoInfo.GetVideoFullPathList: `Path(basedir) / entry` is modelled as `os.path.join` on strings. pathlib's normalisation of repeated and trailing `/` is not modelled.
- Behavior.GetDlcPartsForHeadCenter and Behavior.GetDlcPartsForBodyCenter: stated through `PartsAt`, which both call.
- FileUtil.InitBaseDrive: `platform.system()` and `os.path.exists` are parameters.
- `read_and_cache`: the pandas/HDF5 reading, writing and caching is not modelled; only its string rules are.
- Other I/O and environment code is not modelled:
  - `init_logger`, plotting (`matplot_util.py`, `matplotformat.py`) and the pydantic schemas;
  - Google Drive authentication, download and extraction;
  - the command line (`run_process_with_gdrive.py`, `general.py`) and packaging.
- The commented-out `FreezingKernel` example (`crawler.py:408-475`) is not code.
