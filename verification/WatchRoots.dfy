/** The two frontier searches of `save_selection.py` over one directory tree: live paths and a provider's listing. */
module WatchRoots {
  import opened Options
  import opened PosixPaths
  import opened Ordering
  import opened SaveSelection

  // ---- the tree -----------------------------------------------------------------------------

  /** A link leads to whatever stands at its target, or nowhere. */
  datatype Node = Directory(children: map<string, Node>) | RegularFile | SymbolicLink(target: Option<Node>)

  /** What stands at a path, following no link. */
  function Lookup(node: Node, path: seq<string>): Option<Node> {
    if path == [] then Some(node)
    else if node.Directory? && path[0] in node.children then Lookup(node.children[path[0]], path[1..])
    else None
  }

  predicate IsDir(tree: Node, path: seq<string>) {
    var found := Lookup(tree, path);
    found.Some? && found.value.Directory?
  }

  predicate IsFile(tree: Node, path: seq<string>) {
    Lookup(tree, path) == Some(RegularFile)
  }

  function Follow(node: Node): Option<Node> {
    match node
    case SymbolicLink(None) => None
    case SymbolicLink(Some(target)) => Follow(target)
    case _ => Some(node)
  }

  /** `is_dir` and `is_file`, which follow links. */
  predicate LeadsToDir(tree: Node, path: seq<string>) {
    var found := Lookup(tree, path);
    found.Some? && Follow(found.value).Some? && Follow(found.value).value.Directory?
  }

  predicate LeadsToFile(tree: Node, path: seq<string>) {
    var found := Lookup(tree, path);
    found.Some? && Follow(found.value) == Some(RegularFile)
  }

  /** What `is_symlink` says of a path below the configured root, or of that root itself. */
  predicate IsLink(world: World, path: seq<string>) {
    if path == [] then world.rootIsLink else var found := Lookup(world.tree, path); found.Some? && found.value.SymbolicLink?
  }

  function Names(tree: Node, path: seq<string>): seq<string> {
    if IsDir(tree, path) then SortedKeys(Lookup(tree, path).value.children.Keys) else []
  }

  /** The configured root, itself perhaps a link to the directory that holds `tree`. */
  datatype World = World(tree: Node, rootIsLink: bool)

  lemma {:induction false} LookupStep(tree: Node, path: seq<string>, name: string)
    ensures IsDir(tree, path) ==>
      (name in Lookup(tree, path).value.children <==> Lookup(tree, path + [name]).Some?)
    ensures Lookup(tree, path + [name]).Some? ==> IsDir(tree, path)
  {
    if path == [] {
    } else if tree.Directory? && path[0] in tree.children {
      assert (path + [name])[1..] == path[1..] + [name];
      LookupStep(tree.children[path[0]], path[1..], name);
    }
  }

  // ---- results ----------------------------------------------------------------------------

  /** `SaveWatchRoot` and `ProviderSaveWatchRoot`; the path is given by its segments below the configured root. */
  datatype WatchRoot = WatchRoot(layoutId: string, path: seq<string>, canonicalRoot: string, recursive: bool)

  datatype Request = Request(optIns: set<string>, prefix: seq<string>)

  /** The tests that come before any look at the tree. */
  predicate Asked(reg: Registry, request: Request, layout: Layout) {
    var pattern, prefix := Pattern(layout), request.prefix;
    && (layout.requiresOptIn ==> layout.system in request.optIns)
    && |prefix| <= |pattern|
    && forall k | 0 <= k < |prefix| :: pattern[k] !in reg.tokens && pattern[k] == prefix[k]
  }

  function Remaining(request: Request, layout: Layout): seq<string>
    requires |request.prefix| <= |Pattern(layout)|
  {
    Pattern(layout)[|request.prefix|..]
  }

  function Approved(request: Request, layout: Layout, path: seq<string>): WatchRoot {
    WatchRoot(layout.id, path, Join(request.prefix + path), layout.recursive)
  }

  /** `key=lambda item: (item.canonical_root, item.layout_id)` */
  predicate KeyLe(a: WatchRoot, b: WatchRoot) {
    Lt(a.canonicalRoot, b.canonicalRoot) || (a.canonicalRoot == b.canonicalRoot && Le(a.layoutId, b.layoutId))
  }

  lemma KeyLeIsTotal()
    ensures TotalPreorder(KeyLe)
  {
    forall x: WatchRoot, y: WatchRoot ensures KeyLe(x, y) || KeyLe(y, x) {
      LeTotal(x.canonicalRoot, y.canonicalRoot);
      LeTotal(x.layoutId, y.layoutId);
    }
    forall x: WatchRoot, y: WatchRoot, z: WatchRoot | KeyLe(x, y) && KeyLe(y, z) ensures KeyLe(x, z) {
      KeyLeTransitive(x, y, z);
    }
  }

  lemma KeyLeTransitive(x: WatchRoot, y: WatchRoot, z: WatchRoot)
    requires KeyLe(x, y) && KeyLe(y, z)
    ensures KeyLe(x, z)
  {
    if x.canonicalRoot == y.canonicalRoot {
      if y.canonicalRoot == z.canonicalRoot { LeTransitive(x.layoutId, y.layoutId, z.layoutId); }
    } else if y.canonicalRoot != z.canonicalRoot {
      LeTransitive(x.canonicalRoot, y.canonicalRoot, z.canonicalRoot);
      if x.canonicalRoot == z.canonicalRoot { LeAntisymmetric(x.canonicalRoot, y.canonicalRoot); }
    }
  }

  // ---- what the searches compute ------------------------------------------------------------

  function Extend(path: seq<string>, names: seq<string>): (r: seq<seq<string>>)
    ensures |r| == |names| && forall k | 0 <= k < |names| :: r[k] == path + [names[k]]
  {
    seq(|names|, k requires 0 <= k < |names| => path + [names[k]])
  }

  /** `watch_roots`: where one candidate leads by one pattern segment. */
  function LiveStep(reg: Registry, world: World, segment: string, path: seq<string>): seq<seq<string>> {
    if segment !in reg.tokens then
      if !IsLink(world, path + [segment]) && LeadsToDir(world.tree, path + [segment]) then [path + [segment]] else []
    else if !LeadsToDir(world.tree, path) || IsLink(world, path) then []
    else Extend(path, Filter(LiveAccepts(reg, world, segment, path), Names(world.tree, path)))
  }

  function LiveAccepts(reg: Registry, world: World, segment: string, path: seq<string>): string -> bool {
    name => reg.accepts(segment, name) && !IsLink(world, path + [name]) && LeadsToDir(world.tree, path + [name])
  }

  /** The callables of `resolve_watch_roots_from_listing`. */
  datatype Listing = Listing(
    dirExists: seq<string> -> bool,
    listSubdirs: seq<string> -> seq<string>,
    fileExists: Option<seq<string> -> bool>)

  /** `resolve_watch_roots_from_listing`: the same step by its callables. */
  function ListingStep(reg: Registry, listing: Listing, segment: string, path: seq<string>): seq<seq<string>> {
    if segment !in reg.tokens then
      if listing.dirExists(path + [segment]) then [path + [segment]] else []
    else if path != [] && !listing.dirExists(path) then []
    else Extend(path, Filter(ListingAccepts(reg, segment), listing.listSubdirs(path)))
  }

  function ListingAccepts(reg: Registry, segment: string): string -> bool {
    name => reg.accepts(segment, name)
  }

  type Step = (string, seq<string>) -> seq<seq<string>>

  function Live(reg: Registry, world: World): Step {
    (segment, path) => LiveStep(reg, world, segment, path)
  }

  function Listed(reg: Registry, listing: Listing): Step {
    (segment, path) => ListingStep(reg, listing, segment, path)
  }

  function By(step: Step, segment: string): seq<string> -> seq<seq<string>> {
    path => step(segment, path)
  }

  /** One round of either search: every candidate of the frontier in turn. */
  function Expand(step: seq<string> -> seq<seq<string>>, frontier: seq<seq<string>>): seq<seq<string>> {
    if frontier == [] then []
    else Expand(step, frontier[..|frontier| - 1]) + step(frontier[|frontier| - 1])
  }

  /** The candidates that are left once the whole pattern has been walked. */
  function Frontier(step: Step, pattern: seq<string>): seq<seq<string>> {
    if pattern == [] then [[]]
    else
      Expand(By(step, pattern[|pattern| - 1]), Frontier(step, pattern[..|pattern| - 1]))
  }

  function LiveMarked(world: World, layout: Layout): seq<string> -> bool {
    path => forall marker | marker in layout.markers :: !IsLink(world, path + [marker]) && LeadsToFile(world.tree, path + [marker])
  }

  function ListingMarked(listing: Listing, layout: Layout): seq<string> -> bool {
    path => layout.markers != [] ==>
      listing.fileExists.Some? && forall marker | marker in layout.markers :: listing.fileExists.value(path + [marker])
  }

  function ApproveAll(request: Request, layout: Layout, paths: seq<seq<string>>): (r: seq<WatchRoot>)
    ensures |r| == |paths| && forall k | 0 <= k < |paths| :: r[k] == Approved(request, layout, paths[k])
  {
    seq(|paths|, k requires 0 <= k < |paths| => Approved(request, layout, paths[k]))
  }

  function LiveRoots(reg: Registry, world: World, request: Request, layout: Layout): seq<WatchRoot> {
    if !Asked(reg, request, layout) then []
    else ApproveAll(request, layout, Filter(LiveMarked(world, layout), Frontier(Live(reg, world), Remaining(request, layout))))
  }

  function ListingRoots(reg: Registry, listing: Listing, request: Request, layout: Layout): seq<WatchRoot> {
    if !Asked(reg, request, layout) then []
    else ApproveAll(request, layout, Filter(ListingMarked(listing, layout), Frontier(Listed(reg, listing), Remaining(request, layout))))
  }

  function Collect(roots: Layout -> seq<WatchRoot>, layouts: seq<Layout>): seq<WatchRoot> {
    if layouts == [] then []
    else Collect(roots, layouts[..|layouts| - 1]) + roots(layouts[|layouts| - 1])
  }

  function LiveLayout(reg: Registry, world: World, request: Request): Layout -> seq<WatchRoot> {
    layout => LiveRoots(reg, world, request, layout)
  }

  function ListedLayout(reg: Registry, listing: Listing, request: Request): Layout -> seq<WatchRoot> {
    layout => ListingRoots(reg, listing, request, layout)
  }

  /** `watch_roots` */
  function LiveSearch(reg: Registry, world: World, request: Request): seq<WatchRoot> {
    if !world.tree.Directory? then []
    else Sort(KeyLe, Collect(LiveLayout(reg, world, request), reg.layouts))
  }

  /** `resolve_watch_roots_from_listing` */
  function ListingSearch(reg: Registry, listing: Listing, request: Request): seq<WatchRoot> {
    Sort(KeyLe, Collect(ListedLayout(reg, listing, request), reg.layouts))
  }

  // ---- the independent description of a watch root -------------------------------------------

  /** The path spells out the rest of the pattern, and every step of it is a real directory that the search may list. */
  ghost predicate Reached(reg: Registry, world: World, pattern: seq<string>, path: seq<string>) {
    && SegmentsMatch(reg, pattern, path) && IsDir(world.tree, path)
    && (world.rootIsLink && pattern != [] ==> pattern[0] !in reg.tokens)
  }

  ghost predicate IsRoot(reg: Registry, world: World, request: Request, layout: Layout, root: WatchRoot) {
    && Asked(reg, request, layout) && root == Approved(request, layout, root.path)
    && Reached(reg, world, Remaining(request, layout), root.path)
    && forall marker | marker in layout.markers :: IsFile(world.tree, root.path + [marker])
  }

  ghost predicate Distinct<T(!new)>(s: seq<T>) {
    forall j, k | 0 <= j < k < |s| :: s[j] != s[k]
  }

  /** The listing shows the tree, without its links; of a root that is no directory it shows nothing. */
  ghost predicate Shows(listing: Listing, tree: Node) {
    && listing.fileExists.Some?
    && (forall path | path != [] :: listing.dirExists(path) <==> IsDir(tree, path))
    && (forall path | path == [] || IsDir(tree, path) :: Distinct(listing.listSubdirs(path)))
    && (forall path, name | path == [] || IsDir(tree, path) :: name in listing.listSubdirs(path) <==> IsDir(tree, path + [name]))
    && (forall path | path != [] :: listing.fileExists.value(path) <==> IsFile(tree, path))
  }

  // ---- one step ---------------------------------------------------------------------------

  /** A step leads to exactly the matching real subdirectories, each once. */
  ghost predicate ExactStep(reg: Registry, world: World, segment: string, path: seq<string>, next: seq<seq<string>>) {
    && Distinct(next)
    && forall p :: p in next <==>
         && p != [] && p[..|p| - 1] == path && SegmentMatches(reg, segment, p[|p| - 1]) && IsDir(world.tree, p)
         && (world.rootIsLink && path == [] ==> segment !in reg.tokens)
  }

  lemma {:induction false} FilterDistinct<T(!new)>(keep: T -> bool, s: seq<T>)
    requires Distinct(s)
    ensures Distinct(Filter(keep, s))
  {
    if s != [] {
      FilterDistinct(keep, s[1..]);
      FilterElements(keep, s[1..]);
      var rest := Filter(keep, s[1..]);
      forall k | 0 <= k < |rest| ensures rest[k] != s[0] {
        assert rest[k] in rest;
      }
    }
  }

  lemma ExtendExact(reg: Registry, world: World, segment: string, path: seq<string>, names: seq<string>)
    requires segment in reg.tokens && IsDir(world.tree, path) && !(world.rootIsLink && path == [])
    requires Distinct(names)
    requires forall name :: name in names <==> reg.accepts(segment, name) && IsDir(world.tree, path + [name])
    ensures ExactStep(reg, world, segment, path, Extend(path, names))
  {
    var next := Extend(path, names);
    forall j, k | 0 <= j < k < |next| ensures next[j] != next[k] {
      assert next[j][|path|] == names[j] && next[k][|path|] == names[k];
    }
    forall p ensures p in next <==> p != [] && p[..|p| - 1] == path && reg.accepts(segment, p[|p| - 1]) && IsDir(world.tree, p) {
      if p in next {
        var k :| 0 <= k < |next| && next[k] == p;
        assert p[..|p| - 1] == path && names[k] in names;
      }
      if p != [] && p[..|p| - 1] == path && reg.accepts(segment, p[|p| - 1]) && IsDir(world.tree, p) {
        assert p == path + [p[|p| - 1]];
        var k :| 0 <= k < |names| && names[k] == p[|p| - 1];
        assert next[k] == p;
      }
    }
  }

  lemma LiteralExact(reg: Registry, world: World, segment: string, path: seq<string>, next: seq<seq<string>>)
    requires segment !in reg.tokens
    requires next == if IsDir(world.tree, path + [segment]) then [path + [segment]] else []
    ensures ExactStep(reg, world, segment, path, next)
  {
    forall p ensures p in next <==> p != [] && p[..|p| - 1] == path && p[|p| - 1] == segment && IsDir(world.tree, p) {
      if p != [] && p[..|p| - 1] == path && p[|p| - 1] == segment { assert p == path + [segment]; }
      assert (path + [segment])[..|path|] == path;
    }
  }

  lemma NothingExact(reg: Registry, world: World, segment: string, path: seq<string>)
    requires segment in reg.tokens && (!IsDir(world.tree, path) || (world.rootIsLink && path == []))
    ensures ExactStep(reg, world, segment, path, [])
  {
    forall p | p != [] && p[..|p| - 1] == path && IsDir(world.tree, p) ensures world.rootIsLink && path == [] {
      assert p == path + [p[|p| - 1]];
      LookupStep(world.tree, path, p[|p| - 1]);
    }
  }

  lemma LiveStepIsExact(reg: Registry, world: World, segment: string, path: seq<string>)
    requires world.tree.Directory?
    ensures ExactStep(reg, world, segment, path, LiveStep(reg, world, segment, path))
  {
    RealPaths(world, path + [segment]);
    if segment !in reg.tokens {
      LiteralExact(reg, world, segment, path, LiveStep(reg, world, segment, path));
    } else if !LeadsToDir(world.tree, path) || IsLink(world, path) {
      RealPaths(world, path);
      NothingExact(reg, world, segment, path);
    } else {
      var keep := LiveAccepts(reg, world, segment, path);
      var names := Names(world.tree, path);
      FilterDistinct(keep, names);
      FilterElements(keep, names);
      forall name ensures name in Filter(keep, names) <==> reg.accepts(segment, name) && IsDir(world.tree, path + [name]) {
        LookupStep(world.tree, path, name);
        RealPaths(world, path + [name]);
      }
      RealPaths(world, path);
      ExtendExact(reg, world, segment, path, Filter(keep, names));
    }
  }

  /** Below the root a path is a real directory or file exactly if it leads to one and is no link. */
  lemma RealPaths(world: World, path: seq<string>)
    requires world.tree.Directory?
    ensures path != [] ==> (IsDir(world.tree, path) <==> !IsLink(world, path) && LeadsToDir(world.tree, path))
    ensures path != [] ==> (IsFile(world.tree, path) <==> !IsLink(world, path) && LeadsToFile(world.tree, path))
    ensures path == [] ==> IsDir(world.tree, path) && LeadsToDir(world.tree, path)
  {
  }

  lemma ListingStepIsExact(reg: Registry, listing: Listing, tree: Node, segment: string, path: seq<string>)
    requires Shows(listing, tree) && tree.Directory?
    ensures ExactStep(reg, World(tree, false), segment, path, ListingStep(reg, listing, segment, path))
  {
    var world := World(tree, false);
    if segment !in reg.tokens {
      LiteralExact(reg, world, segment, path, ListingStep(reg, listing, segment, path));
    } else if path != [] && !listing.dirExists(path) {
      NothingExact(reg, world, segment, path);
    } else {
      var keep := ListingAccepts(reg, segment);
      var names := listing.listSubdirs(path);
      assert IsDir(tree, path);
      FilterDistinct(keep, names);
      FilterElements(keep, names);
      ExtendExact(reg, world, segment, path, Filter(keep, names));
    }
  }

  // ---- whole searches -----------------------------------------------------------------------

  /** A list of candidates is exactly the paths that spell out a pattern, each once. */
  ghost predicate ExactFrontier(reg: Registry, world: World, pattern: seq<string>, frontier: seq<seq<string>>) {
    && Distinct(frontier)
    && forall p :: p in frontier <==> Reached(reg, world, pattern, p)
  }

  lemma {:induction false} ExpandMembers(step: seq<string> -> seq<seq<string>>, frontier: seq<seq<string>>, p: seq<string>)
    ensures p in Expand(step, frontier) <==> exists k :: 0 <= k < |frontier| && p in step(frontier[k])
  {
    if frontier != [] {
      var n := |frontier| - 1;
      ExpandMembers(step, frontier[..n], p);
      if p in step(frontier[n]) { assert 0 <= n < |frontier| && p in step(frontier[n]); }
      if k :| 0 <= k < |frontier| && p in step(frontier[k]) {
        if k < n { assert p in step(frontier[..n][k]); }
      }
    }
  }

  lemma {:induction false} ExpandDistinct(step: seq<string> -> seq<seq<string>>, frontier: seq<seq<string>>)
    requires Distinct(frontier) && forall q | q in frontier :: Distinct(step(q))
    requires forall q, p | q in frontier && p in step(q) :: p != [] && p[..|p| - 1] == q
    ensures Distinct(Expand(step, frontier))
  {
    if frontier != [] {
      var n := |frontier| - 1;
      var before, last := Expand(step, frontier[..n]), step(frontier[n]);
      ExpandDistinct(step, frontier[..n]);
      forall j, k | 0 <= j < |before| && 0 <= k < |last| ensures before[j] != last[k] {
        ExpandMembers(step, frontier[..n], before[j]);
        var m :| 0 <= m < n && before[j] in step(frontier[..n][m]);
        assert last[k] in step(frontier[n]) && frontier[m] in frontier;
      }
    }
  }

  lemma {:induction false} FrontierIsExact(reg: Registry, world: World, step: Step, pattern: seq<string>)
    requires world.tree.Directory?
    requires forall segment, path :: ExactStep(reg, world, segment, path, step(segment, path))
    ensures ExactFrontier(reg, world, pattern, Frontier(step, pattern))
  {
    if pattern == [] {
      forall p ensures p in Frontier(step, pattern) <==> Reached(reg, world, pattern, p) {
        assert p == [] <==> SegmentsMatch(reg, pattern, p);
      }
    } else {
      var n := |pattern| - 1;
      var one := By(step, pattern[n]);
      FrontierIsExact(reg, world, step, pattern[..n]);
      ExpandIsExact(reg, world, one, pattern, Frontier(step, pattern[..n]));
    }
  }

  lemma ExpandIsExact(reg: Registry, world: World, one: seq<string> -> seq<seq<string>>, pattern: seq<string>, frontier: seq<seq<string>>)
    requires world.tree.Directory? && pattern != []
    requires forall path :: ExactStep(reg, world, pattern[|pattern| - 1], path, one(path))
    requires ExactFrontier(reg, world, pattern[..|pattern| - 1], frontier)
    ensures ExactFrontier(reg, world, pattern, Expand(one, frontier))
  {
    ExpandDistinct(one, frontier);
    forall p ensures p in Expand(one, frontier) <==> Reached(reg, world, pattern, p) {
      ExpandMembers(one, frontier, p);
      ReachedByOne(reg, world, pattern, p);
      if k :| 0 <= k < |frontier| && p in one(frontier[k]) {
        assert ExactStep(reg, world, pattern[|pattern| - 1], frontier[k], one(frontier[k]));
        assert frontier[k] in frontier;
      }
      if Reached(reg, world, pattern, p) {
        assert p[..|p| - 1] in frontier;
        var k :| 0 <= k < |frontier| && frontier[k] == p[..|p| - 1];
        assert ExactStep(reg, world, pattern[|pattern| - 1], frontier[k], one(frontier[k]));
      }
    }
  }

  /** Reaching the end of a pattern: reaching all but the last segment, and one exact step more. */
  lemma ReachedByOne(reg: Registry, world: World, pattern: seq<string>, p: seq<string>)
    requires pattern != [] && world.tree.Directory?
    ensures Reached(reg, world, pattern, p) <==>
      && p != [] && Reached(reg, world, pattern[..|pattern| - 1], p[..|p| - 1])
      && SegmentMatches(reg, pattern[|pattern| - 1], p[|p| - 1]) && IsDir(world.tree, p)
      && (world.rootIsLink && p[..|p| - 1] == [] ==> pattern[|pattern| - 1] !in reg.tokens)
  {
    if p != [] {
      assert p == p[..|p| - 1] + [p[|p| - 1]];
      LookupStep(world.tree, p[..|p| - 1], p[|p| - 1]);
      var n := |pattern| - 1;
      if |p| == n + 1 {
        assert SegmentsMatch(reg, pattern, p) <==> SegmentsMatch(reg, pattern[..n], p[..n]) && SegmentMatches(reg, pattern[n], p[n]);
      }
    }
  }

  ghost predicate ExactRoots(reg: Registry, world: World, request: Request, layouts: seq<Layout>, roots: seq<WatchRoot>) {
    && Distinct(roots)
    && forall root :: root in roots <==> exists layout :: layout in layouts && IsRoot(reg, world, request, layout, root)
  }

  lemma ApprovedRootsAreExact(reg: Registry, world: World, request: Request, layout: Layout,
                              frontier: seq<seq<string>>, marked: seq<string> -> bool)
    requires Asked(reg, request, layout) && ExactFrontier(reg, world, Remaining(request, layout), frontier)
    requires forall path :: marked(path) <==> forall marker | marker in layout.markers :: IsFile(world.tree, path + [marker])
    ensures ExactRoots(reg, world, request, [layout], ApproveAll(request, layout, Filter(marked, frontier)))
  {
    var paths := Filter(marked, frontier);
    var roots := ApproveAll(request, layout, paths);
    FilterDistinct(marked, frontier);
    FilterElements(marked, frontier);
    forall j, k | 0 <= j < k < |roots| ensures roots[j] != roots[k] {
      assert roots[j].path == paths[j] && roots[k].path == paths[k];
    }
    forall root ensures root in roots <==> exists l :: l in [layout] && IsRoot(reg, world, request, l, root) {
      if root in roots {
        var k :| 0 <= k < |roots| && roots[k] == root;
        assert root == Approved(request, layout, paths[k]) && paths[k] in paths;
        assert layout in [layout] && IsRoot(reg, world, request, layout, root);
      }
      if l :| l in [layout] && IsRoot(reg, world, request, l, root) {
        assert root.path in paths;
        var k :| 0 <= k < |paths| && paths[k] == root.path;
        assert roots[k] == root;
      }
    }
  }

  lemma MarkersAreReal(world: World, layout: Layout)
    requires world.tree.Directory?
    ensures forall path :: LiveMarked(world, layout)(path) <==> forall marker | marker in layout.markers :: IsFile(world.tree, path + [marker])
  {
    forall path, marker | marker in layout.markers
      ensures IsFile(world.tree, path + [marker]) <==> !IsLink(world, path + [marker]) && LeadsToFile(world.tree, path + [marker])
    {
      RealPaths(world, path + [marker]);
    }
  }

  lemma UnaskedHasNoRoots(reg: Registry, world: World, request: Request, layout: Layout)
    requires !Asked(reg, request, layout)
    ensures ExactRoots(reg, world, request, [layout], [])
  {
  }

  lemma LiveRootsAreExact(reg: Registry, world: World, request: Request, layout: Layout)
    requires world.tree.Directory?
    ensures ExactRoots(reg, world, request, [layout], LiveRoots(reg, world, request, layout))
  {
    if Asked(reg, request, layout) {
      var step := Live(reg, world);
      forall segment, path ensures ExactStep(reg, world, segment, path, step(segment, path)) {
        LiveStepIsExact(reg, world, segment, path);
      }
      FrontierIsExact(reg, world, step, Remaining(request, layout));
      MarkersAreReal(world, layout);
      ApprovedRootsAreExact(reg, world, request, layout, Frontier(step, Remaining(request, layout)), LiveMarked(world, layout));
    } else {
      UnaskedHasNoRoots(reg, world, request, layout);
    }
  }

  lemma ListingRootsAreExact(reg: Registry, listing: Listing, tree: Node, request: Request, layout: Layout)
    requires Shows(listing, tree) && tree.Directory?
    ensures ExactRoots(reg, World(tree, false), request, [layout], ListingRoots(reg, listing, request, layout))
  {
    var world := World(tree, false);
    if Asked(reg, request, layout) {
      var step := Listed(reg, listing);
      forall segment, path ensures ExactStep(reg, world, segment, path, step(segment, path)) {
        ListingStepIsExact(reg, listing, tree, segment, path);
      }
      FrontierIsExact(reg, world, step, Remaining(request, layout));
      ApprovedRootsAreExact(reg, world, request, layout, Frontier(step, Remaining(request, layout)), ListingMarked(listing, layout));
    } else {
      UnaskedHasNoRoots(reg, world, request, layout);
    }
  }

  ghost predicate DistinctIds(layouts: seq<Layout>) {
    forall j, k | 0 <= j < k < |layouts| :: layouts[j].id != layouts[k].id
  }

  lemma {:induction false} CollectIsExact(reg: Registry, world: World, request: Request, roots: Layout -> seq<WatchRoot>, layouts: seq<Layout>)
    requires DistinctIds(layouts)
    requires forall layout :: ExactRoots(reg, world, request, [layout], roots(layout))
    ensures ExactRoots(reg, world, request, layouts, Collect(roots, layouts))
  {
    if layouts != [] {
      var n := |layouts| - 1;
      var front, last := layouts[..n], layouts[n];
      CollectIsExact(reg, world, request, roots, front);
      JoinExact(reg, world, request, front, last, Collect(roots, front), roots(last));
      assert front + [last] == layouts;
    }
  }

  lemma JoinExact(reg: Registry, world: World, request: Request, front: seq<Layout>, last: Layout, a: seq<WatchRoot>, b: seq<WatchRoot>)
    requires forall layout | layout in front :: layout.id != last.id
    requires ExactRoots(reg, world, request, front, a) && ExactRoots(reg, world, request, [last], b)
    ensures ExactRoots(reg, world, request, front + [last], a + b)
  {
    forall j, k | 0 <= j < |a| && 0 <= k < |b| ensures a[j] != b[k] {
      assert a[j] in a && b[k] in b;
      var layout :| layout in front && IsRoot(reg, world, request, layout, a[j]);
      assert a[j].layoutId == layout.id;
      var l :| l in [last] && IsRoot(reg, world, request, l, b[k]);
      assert b[k].layoutId == last.id;
    }
    forall root ensures root in a + b <==> exists layout :: layout in front + [last] && IsRoot(reg, world, request, layout, root) {
      if layout :| layout in front + [last] && IsRoot(reg, world, request, layout, root) {
        assert layout in front || layout in [last];
      }
    }
  }

  lemma {:induction false} SameMembersSameMultiset<T(!new)>(s: seq<T>, t: seq<T>)
    requires Distinct(s) && Distinct(t) && forall x :: x in s <==> x in t
    ensures multiset(s) == multiset(t)
  {
    forall x ensures multiset(s)[x] == multiset(t)[x] {
      OneAtMost(s, x);
      OneAtMost(t, x);
    }
  }

  lemma {:induction false} OneAtMost<T(!new)>(s: seq<T>, x: T)
    requires Distinct(s)
    ensures multiset(s)[x] == if x in s then 1 else 0
  {
    if s != [] {
      assert s == [s[0]] + s[1..];
      OneAtMost(s[1..], x);
      if s[0] == x { assert x !in s[1..]; }
    }
  }

  // ---- the main results -------------------------------------------------------------------

  /** Both searches order their results by canonical root and identifier; among exact results the key is unique. */
  lemma KeysAreUnique(reg: Registry, world: World, request: Request, roots: seq<WatchRoot>)
    requires ValidRegistry(reg) && ExactRoots(reg, world, request, reg.layouts, roots)
    ensures AntisymmetricOn(KeyLe, multiset(roots))
  {
    forall a, b | a in multiset(roots) && b in multiset(roots) && KeyLe(a, b) && KeyLe(b, a) ensures a == b {
      assert a in roots && b in roots;
      if a.canonicalRoot != b.canonicalRoot { LeAntisymmetric(a.canonicalRoot, b.canonicalRoot); }
      LeAntisymmetric(a.layoutId, b.layoutId);
      SameKeySameRoot(reg, world, request, a, b);
    }
  }

  lemma SameKeySameRoot(reg: Registry, world: World, request: Request, a: WatchRoot, b: WatchRoot)
    requires ValidRegistry(reg) && a.canonicalRoot == b.canonicalRoot && a.layoutId == b.layoutId
    requires exists layout :: layout in reg.layouts && IsRoot(reg, world, request, layout, a)
    requires exists layout :: layout in reg.layouts && IsRoot(reg, world, request, layout, b)
    ensures a == b
  {
    var layout :| layout in reg.layouts && IsRoot(reg, world, request, layout, a);
    var layout' :| layout' in reg.layouts && IsRoot(reg, world, request, layout', b);
    assert layout.id == a.layoutId && layout'.id == b.layoutId;
    assert layout == layout';
    SameLayoutSameRoot(reg, world, request, layout, a, b);
  }

  lemma SameLayoutSameRoot(reg: Registry, world: World, request: Request, layout: Layout, a: WatchRoot, b: WatchRoot)
    requires ValidRegistry(reg) && layout in reg.layouts && a.canonicalRoot == b.canonicalRoot
    requires IsRoot(reg, world, request, layout, a) && IsRoot(reg, world, request, layout, b)
    ensures a == b
  {
    FullPath(reg, world, request, layout, a);
    FullPath(reg, world, request, layout, b);
    PrefixedPathsInjective(request.prefix, a.path, b.path);
  }

  lemma PrefixedPathsInjective(prefix: seq<string>, a: seq<string>, b: seq<string>)
    requires prefix + a != [] && prefix + b != [] && Join(prefix + a) == Join(prefix + b)
    requires forall segment | segment in prefix + a :: Clean(segment)
    requires forall segment | segment in prefix + b :: Clean(segment)
    ensures a == b
  {
    JoinInjective(prefix + a, prefix + b);
    assert a == (prefix + a)[|prefix|..];
    assert b == (prefix + b)[|prefix|..];
  }

  /** The canonical root of a result spells out the whole pattern of its layout. */
  lemma FullPath(reg: Registry, world: World, request: Request, layout: Layout, root: WatchRoot)
    requires ValidRegistry(reg) && layout in reg.layouts && IsRoot(reg, world, request, layout, root)
    ensures SegmentsMatch(reg, Pattern(layout), request.prefix + root.path)
    ensures request.prefix + root.path != []
    ensures forall segment | segment in request.prefix + root.path :: Clean(segment)
  {
    var full, pattern := request.prefix + root.path, Pattern(layout);
    forall k | 0 <= k < |pattern| ensures SegmentMatches(reg, pattern[k], full[k]) {
      if k >= |request.prefix| {
        assert pattern[k] == Remaining(request, layout)[k - |request.prefix|];
      }
    }
    MatchedSegmentsAreClean(reg, layout, full);
  }

  /**
   * The live search returns, in order, exactly the existing directories that a registered layout describes: the
   * segments match, no step is a link, and the markers are regular files.
   */
  lemma LiveSearchIsExact(reg: Registry, world: World, request: Request)
    requires ValidRegistry(reg) && world.tree.Directory?
    ensures ExactRoots(reg, world, request, reg.layouts, LiveSearch(reg, world, request))
    ensures Sorted(KeyLe, LiveSearch(reg, world, request))
  {
    var roots := LiveLayout(reg, world, request);
    forall layout ensures ExactRoots(reg, world, request, [layout], roots(layout)) {
      LiveRootsAreExact(reg, world, request, layout);
    }
    CollectIsExact(reg, world, request, roots, reg.layouts);
    SortKeepsExact(reg, world, request, reg.layouts, Collect(roots, reg.layouts));
  }

  lemma ListingSearchIsExact(reg: Registry, listing: Listing, tree: Node, request: Request)
    requires ValidRegistry(reg) && Shows(listing, tree) && tree.Directory?
    ensures ExactRoots(reg, World(tree, false), request, reg.layouts, ListingSearch(reg, listing, request))
    ensures Sorted(KeyLe, ListingSearch(reg, listing, request))
  {
    var world := World(tree, false);
    var roots := ListedLayout(reg, listing, request);
    forall layout ensures ExactRoots(reg, world, request, [layout], roots(layout)) {
      ListingRootsAreExact(reg, listing, tree, request, layout);
    }
    CollectIsExact(reg, world, request, roots, reg.layouts);
    SortKeepsExact(reg, world, request, reg.layouts, Collect(roots, reg.layouts));
  }

  lemma SortKeepsExact(reg: Registry, world: World, request: Request, layouts: seq<Layout>, roots: seq<WatchRoot>)
    requires ExactRoots(reg, world, request, layouts, roots)
    ensures ExactRoots(reg, world, request, layouts, Sort(KeyLe, roots)) && Sorted(KeyLe, Sort(KeyLe, roots))
  {
    KeyLeIsTotal();
    SortProperties(KeyLe, roots);
    var sorted := Sort(KeyLe, roots);
    forall root ensures root in sorted <==> root in roots {
      assert root in multiset(sorted) <==> root in multiset(roots);
    }
    forall j, k | 0 <= j < k < |sorted| ensures sorted[j] != sorted[k] {
      OneAtMost(roots, sorted[j]);
      if sorted[j] == sorted[k] { CountTwice(sorted, j, k); }
    }
  }

  lemma CountTwice<T>(s: seq<T>, j: nat, k: nat)
    requires j < k < |s| && s[j] == s[k]
    ensures multiset(s)[s[j]] >= 2
  {
    assert s == s[..j + 1] + s[j + 1..];
    assert s[..j + 1][j] == s[j] && s[j + 1..][k - j - 1] == s[j];
    assert s[j] in multiset(s[..j + 1]) && s[j] in multiset(s[j + 1..]);
  }

  /** Searches with the same exact results in the same order are the same. */
  lemma ExactSearchesAgree(reg: Registry, world: World, request: Request, a: seq<WatchRoot>, b: seq<WatchRoot>)
    requires ValidRegistry(reg) && Sorted(KeyLe, a) && Sorted(KeyLe, b)
    requires ExactRoots(reg, world, request, reg.layouts, a) && ExactRoots(reg, world, request, reg.layouts, b)
    ensures a == b
  {
    SameMembersSameMultiset(a, b);
    KeysAreUnique(reg, world, request, a);
    SortedPermutationsEqual(KeyLe, a, b);
  }

  /** A layout whose whole pattern the prefix already spells out and that asks for no marker. */
  predicate Bare(reg: Registry, request: Request, layout: Layout) {
    Asked(reg, request, layout) && Remaining(request, layout) == [] && layout.markers == []
  }

  /** Without a root directory a listing leads nowhere. */
  lemma {:induction false} FrontierOfNothing(reg: Registry, listing: Listing, tree: Node, pattern: seq<string>)
    requires Shows(listing, tree) && !tree.Directory?
    ensures Frontier(Listed(reg, listing), pattern) == if pattern == [] then [[]] else []
  {
    if pattern != [] {
      var n := |pattern| - 1;
      FrontierOfNothing(reg, listing, tree, pattern[..n]);
      StepFromNothing(reg, listing, tree, pattern[n]);
      var step := By(Listed(reg, listing), pattern[n]);
      var start: seq<seq<string>> := [[]];
      assert start[..0] == [] && Expand(step, start) == step([]);
    }
  }

  lemma StepFromNothing(reg: Registry, listing: Listing, tree: Node, segment: string)
    requires Shows(listing, tree) && !tree.Directory?
    ensures ListingStep(reg, listing, segment, []) == []
  {
    LookupStep(tree, [], segment);
    forall name ensures name !in listing.listSubdirs([]) {
      LookupStep(tree, [], name);
    }
    FilterDropsAll(ListingAccepts(reg, segment), listing.listSubdirs([]));
  }

  lemma RootsOfNothing(reg: Registry, listing: Listing, tree: Node, request: Request, layout: Layout)
    requires Shows(listing, tree) && !tree.Directory?
    ensures ListingRoots(reg, listing, request, layout) == if Bare(reg, request, layout) then [Approved(request, layout, [])] else []
  {
    if Asked(reg, request, layout) {
      var start: seq<seq<string>> := [[]];
      FrontierOfNothing(reg, listing, tree, Remaining(request, layout));
      if layout.markers != [] { LookupStep(tree, [], layout.markers[0]); }
      assert start[1..] == [] && Filter(ListingMarked(listing, layout), start[1..]) == [];
      assert ListingMarked(listing, layout)([]) <==> layout.markers == [] by {
        if layout.markers != [] { assert layout.markers[0] in layout.markers && [] + [layout.markers[0]] != []; }
      }
    }
  }

  /** What the listing search reports without a root directory. */
  ghost predicate IsBareRoot(reg: Registry, request: Request, layouts: seq<Layout>, root: WatchRoot) {
    exists layout :: layout in layouts && Bare(reg, request, layout) && root == Approved(request, layout, [])
  }

  lemma {:induction false} CollectMembers(roots: Layout -> seq<WatchRoot>, layouts: seq<Layout>, root: WatchRoot)
    ensures root in Collect(roots, layouts) <==> exists layout :: layout in layouts && root in roots(layout)
  {
    if layouts != [] {
      var front, last := layouts[..|layouts| - 1], layouts[|layouts| - 1];
      CollectMembers(roots, front, root);
      assert layouts == front + [last];
      if layout :| layout in front && root in roots(layout) { assert layout in layouts; }
    }
  }

  lemma CollectOfNothing(reg: Registry, listing: Listing, tree: Node, request: Request, layouts: seq<Layout>, root: WatchRoot)
    requires Shows(listing, tree) && !tree.Directory?
    ensures root in Collect(ListedLayout(reg, listing, request), layouts) <==> IsBareRoot(reg, request, layouts, root)
  {
    var roots := ListedLayout(reg, listing, request);
    CollectMembers(roots, layouts, root);
    forall layout ensures root in roots(layout) <==> Bare(reg, request, layout) && root == Approved(request, layout, []) {
      RootsOfNothing(reg, listing, tree, request, layout);
    }
  }

  /** Where the root is no directory, the listing search reports exactly the bare layouts. */
  lemma ListingOfNothing(reg: Registry, listing: Listing, tree: Node, request: Request, root: WatchRoot)
    requires Shows(listing, tree) && !tree.Directory?
    ensures root in ListingSearch(reg, listing, request) <==> IsBareRoot(reg, request, reg.layouts, root)
  {
    var found := Collect(ListedLayout(reg, listing, request), reg.layouts);
    CollectOfNothing(reg, listing, tree, request, reg.layouts, root);
    KeyLeIsTotal();
    SortProperties(KeyLe, found);
    assert root in multiset(Sort(KeyLe, found)) <==> root in multiset(found);
  }

  lemma SomeMember(roots: seq<WatchRoot>)
    ensures roots != [] ==> exists root :: root in roots
  {
    if roots != [] { assert roots[0] in roots; }
  }

  /**
   * When the root is no link and the listing shows the tree without its links, the two searches agree, result for
   * result, if and only if the root is a directory or no layout is bare.
   */
  lemma TwinsAgree(reg: Registry, listing: Listing, tree: Node, request: Request)
    requires ValidRegistry(reg) && Shows(listing, tree)
    ensures LiveSearch(reg, World(tree, false), request) == ListingSearch(reg, listing, request) <==>
      tree.Directory? || forall layout | layout in reg.layouts :: !Bare(reg, request, layout)
  {
    var world := World(tree, false);
    var live, listed := LiveSearch(reg, world, request), ListingSearch(reg, listing, request);
    if tree.Directory? {
      LiveSearchIsExact(reg, world, request);
      ListingSearchIsExact(reg, listing, tree, request);
      ExactSearchesAgree(reg, world, request, live, listed);
    } else {
      forall root ensures root in listed <==> IsBareRoot(reg, request, reg.layouts, root) {
        ListingOfNothing(reg, listing, tree, request, root);
      }
      if layout :| layout in reg.layouts && Bare(reg, request, layout) {
        assert Approved(request, layout, []) in listed;
      } else {
        SomeMember(listed);
      }
    }
  }

  /** Without a prefix, as its one caller uses it, the listing search agrees with the live one whatever the root is. */
  lemma TwinsAgreeWithoutPrefix(reg: Registry, listing: Listing, world: World, request: Request)
    requires ValidRegistry(reg) && Shows(listing, world.tree) && request.prefix == []
    ensures LiveSearch(reg, world, request) == ListingSearch(reg, listing, request)
  {
    var unlinked := World(world.tree, false);
    TwinsAgree(reg, listing, world.tree, request);
    if world.tree.Directory? {
      LiveSearchIsExact(reg, world, request);
      LiveSearchIsExact(reg, unlinked, request);
      forall layout, root | layout in reg.layouts
        ensures IsRoot(reg, world, request, layout, root) <==> IsRoot(reg, unlinked, request, layout, root)
      {
        assert ValidLayout(reg, layout);
        assert Remaining(request, layout) == Pattern(layout);
      }
      ExactSearchesAgree(reg, unlinked, request, LiveSearch(reg, world, request), LiveSearch(reg, unlinked, request));
    } else {
      forall layout | layout in reg.layouts ensures !Bare(reg, request, layout) {
        assert Pattern(layout)[0..] == Pattern(layout);
      }
    }
  }

  /** The search for this layout does not begin by listing the configured root. */
  predicate OpensDirectly(reg: Registry, request: Request, layout: Layout)
    requires Asked(reg, request, layout)
  {
    Remaining(request, layout) == [] || Remaining(request, layout)[0] !in reg.tokens
  }

  lemma LinkedRootIsRoot(reg: Registry, tree: Node, request: Request, layout: Layout, root: WatchRoot)
    ensures IsRoot(reg, World(tree, true), request, layout, root) <==>
      IsRoot(reg, World(tree, false), request, layout, root) && OpensDirectly(reg, request, layout)
  {
  }

  /** Behind a linked root the live search misses exactly the roots whose search would begin by listing that root. */
  lemma LinkedRootHidesListings(reg: Registry, listing: Listing, tree: Node, request: Request, layout: Layout, root: WatchRoot)
    requires ValidRegistry(reg) && Shows(listing, tree) && tree.Directory?
    requires layout in reg.layouts && layout.id == root.layoutId
    ensures root in LiveSearch(reg, World(tree, true), request) <==>
      root in ListingSearch(reg, listing, request) && Asked(reg, request, layout) && OpensDirectly(reg, request, layout)
  {
    LiveSearchIsExact(reg, World(tree, true), request);
    ListingSearchIsExact(reg, listing, tree, request);
    OnlyOwnLayout(reg, World(tree, true), request, layout, root, LiveSearch(reg, World(tree, true), request));
    OnlyOwnLayout(reg, World(tree, false), request, layout, root, ListingSearch(reg, listing, request));
    LinkedRootIsRoot(reg, tree, request, layout, root);
  }

  lemma OnlyOwnLayout(reg: Registry, world: World, request: Request, layout: Layout, root: WatchRoot, roots: seq<WatchRoot>)
    requires ValidRegistry(reg) && layout in reg.layouts && layout.id == root.layoutId
    requires ExactRoots(reg, world, request, reg.layouts, roots)
    ensures root in roots <==> IsRoot(reg, world, request, layout, root)
  {
    if root in roots {
      var l :| l in reg.layouts && IsRoot(reg, world, request, l, root);
      assert l.id == layout.id;
    }
  }

  /**
   * Behind a linked root the two searches agree, result for result, if and only if no root is there to be found by
   * listing it first; where the link leads to no directory, if and only if no layout is bare.
   */
  lemma LinkedTwinsAgree(reg: Registry, listing: Listing, tree: Node, request: Request)
    requires ValidRegistry(reg) && Shows(listing, tree)
    ensures LiveSearch(reg, World(tree, true), request) == ListingSearch(reg, listing, request) <==>
      if tree.Directory? then
        forall layout, root | layout in reg.layouts && IsRoot(reg, World(tree, false), request, layout, root) :: OpensDirectly(reg, request, layout)
      else forall layout | layout in reg.layouts :: !Bare(reg, request, layout)
  {
    if tree.Directory? {
      LinkedTwinsOverDirectory(reg, listing, tree, request);
    } else {
      TwinsAgree(reg, listing, tree, request);
    }
  }

  lemma LinkedTwinsOverDirectory(reg: Registry, listing: Listing, tree: Node, request: Request)
    requires ValidRegistry(reg) && Shows(listing, tree) && tree.Directory?
    ensures LiveSearch(reg, World(tree, true), request) == ListingSearch(reg, listing, request) <==>
      forall layout, root | layout in reg.layouts && IsRoot(reg, World(tree, false), request, layout, root) :: OpensDirectly(reg, request, layout)
  {
    var live, listed := LiveSearch(reg, World(tree, true), request), ListingSearch(reg, listing, request);
    LiveSearchIsExact(reg, World(tree, true), request);
    ListingSearchIsExact(reg, listing, tree, request);
    if live == listed {
      forall layout, root | layout in reg.layouts && IsRoot(reg, World(tree, false), request, layout, root)
        ensures OpensDirectly(reg, request, layout)
      {
        LinkedRootHidesListings(reg, listing, tree, request, layout, root);
      }
    }
    if forall layout, root | layout in reg.layouts && IsRoot(reg, World(tree, false), request, layout, root) :: OpensDirectly(reg, request, layout) {
      forall layout, root | layout in reg.layouts
        ensures IsRoot(reg, World(tree, true), request, layout, root) <==> IsRoot(reg, World(tree, false), request, layout, root)
      {
        LinkedRootIsRoot(reg, tree, request, layout, root);
      }
      ExactSearchesAgree(reg, World(tree, false), request, live, listed);
    }
  }

  // ---- a listing without a file test --------------------------------------------------------

  function Unmarked(): Layout -> bool {
    (layout: Layout) => layout.markers == []
  }

  function WithoutMarked(reg: Registry): Registry {
    reg.(layouts := Filter(Unmarked(), reg.layouts))
  }

  /** The listing of a provider that cannot test for files. */
  function WithoutFiles(listing: Listing): Listing {
    listing.(fileExists := None)
  }

  lemma {:induction false} SameExpansions(step: seq<string> -> seq<seq<string>>, step': seq<string> -> seq<seq<string>>, frontier: seq<seq<string>>)
    requires forall path :: step(path) == step'(path)
    ensures Expand(step, frontier) == Expand(step', frontier)
  {
    if frontier != [] { SameExpansions(step, step', frontier[..|frontier| - 1]); }
  }

  lemma {:induction false} SameFrontiers(step: Step, step': Step, pattern: seq<string>)
    requires forall segment, path :: step(segment, path) == step'(segment, path)
    ensures Frontier(step, pattern) == Frontier(step', pattern)
  {
    if pattern != [] {
      var n := |pattern| - 1;
      SameFrontiers(step, step', pattern[..n]);
      SameExpansions(By(step, pattern[n]), By(step', pattern[n]), Frontier(step, pattern[..n]));
    }
  }

  lemma {:induction false} SameFilters<T>(keep: T -> bool, keep': T -> bool, s: seq<T>)
    requires forall x :: keep(x) == keep'(x)
    ensures Filter(keep, s) == Filter(keep', s)
  {
    if s != [] { SameFilters(keep, keep', s[1..]); }
  }

  lemma StepNeedsNoFileTest(reg: Registry, listing: Listing, segment: string, path: seq<string>)
    ensures ListingStep(reg, WithoutFiles(listing), segment, path) ==
      ListingStep(WithoutMarked(reg), listing, segment, path)
  {
    var reg' := WithoutMarked(reg);
    if segment in reg.tokens {
      SameFilters(ListingAccepts(reg, segment), ListingAccepts(reg', segment), listing.listSubdirs(path));
    }
  }

  /** Without a file test a marked layout has no roots; with or without one, an unmarked layout has the same. */
  lemma RootsWithoutFileTest(reg: Registry, listing: Listing, request: Request, layout: Layout)
    ensures ListingRoots(reg, WithoutFiles(listing), request, layout) ==
      if layout.markers == [] then ListingRoots(WithoutMarked(reg), listing, request, layout) else []
  {
    var reg', blind := WithoutMarked(reg), WithoutFiles(listing);
    if Asked(reg, request, layout) {
      forall segment, path ensures Listed(reg, blind)(segment, path) == Listed(reg', listing)(segment, path) {
        StepNeedsNoFileTest(reg, listing, segment, path);
      }
      SameFrontiers(Listed(reg, blind), Listed(reg', listing), Remaining(request, layout));
      var frontier := Frontier(Listed(reg, blind), Remaining(request, layout));
      if layout.markers == [] {
        SameFilters(ListingMarked(blind, layout), ListingMarked(listing, layout), frontier);
      } else {
        FilterDropsAll(ListingMarked(blind, layout), frontier);
      }
    }
  }

  lemma CollectAppend(roots: Layout -> seq<WatchRoot>, front: seq<Layout>, last: Layout)
    ensures Collect(roots, front + [last]) == Collect(roots, front) + roots(last)
  {
    assert (front + [last])[..|front|] == front;
  }

  lemma {:induction false} CollectKept(roots: Layout -> seq<WatchRoot>, roots': Layout -> seq<WatchRoot>, keep: Layout -> bool, layouts: seq<Layout>)
    requires forall layout :: roots(layout) == if keep(layout) then roots'(layout) else []
    ensures Collect(roots, layouts) == Collect(roots', Filter(keep, layouts))
  {
    if layouts != [] {
      var n := |layouts| - 1;
      CollectKept(roots, roots', keep, layouts[..n]);
      CollectKeptSnoc(roots, roots', keep, layouts[..n], layouts[n]);
      assert layouts == layouts[..n] + [layouts[n]];
    }
  }

  lemma CollectKeptSnoc(roots: Layout -> seq<WatchRoot>, roots': Layout -> seq<WatchRoot>, keep: Layout -> bool, front: seq<Layout>, last: Layout)
    requires roots(last) == if keep(last) then roots'(last) else []
    requires Collect(roots, front) == Collect(roots', Filter(keep, front))
    ensures Collect(roots, front + [last]) == Collect(roots', Filter(keep, front + [last]))
  {
    CollectAppend(roots, front, last);
    CollectAppend(roots', Filter(keep, front), last);
    FilterConcat(keep, front, [last]);
    if !keep(last) { assert Filter(keep, front) + [] == Filter(keep, front); }
  }

  /** A listing search without a file test is the search for the layouts that ask for no marker. */
  lemma WithoutFileTest(reg: Registry, listing: Listing, request: Request)
    ensures ListingSearch(reg, WithoutFiles(listing), request) ==
      ListingSearch(WithoutMarked(reg), listing, request)
  {
    var reg', blind := WithoutMarked(reg), WithoutFiles(listing);
    forall layout
      ensures ListedLayout(reg, blind, request)(layout) == if Unmarked()(layout) then ListedLayout(reg', listing, request)(layout) else []
    {
      RootsWithoutFileTest(reg, listing, request, layout);
    }
    CollectKept(ListedLayout(reg, blind, request), ListedLayout(reg', listing, request), Unmarked(), reg.layouts);
  }

  lemma {:induction false} FilterKeepsIds(keep: Layout -> bool, layouts: seq<Layout>)
    requires DistinctIds(layouts)
    ensures DistinctIds(Filter(keep, layouts))
  {
    if layouts != [] {
      FilterKeepsIds(keep, layouts[1..]);
      FilterElements(keep, layouts[1..]);
      var rest := Filter(keep, layouts[1..]);
      forall k | 0 <= k < |rest| ensures rest[k].id != layouts[0].id {
        assert rest[k] in rest && rest[k] in layouts[1..];
      }
    }
  }

  /** Without a file test the listing search returns exactly the roots of the layouts that ask for no marker. */
  lemma UnmarkedSearchIsExact(reg: Registry, listing: Listing, tree: Node, request: Request)
    requires ValidRegistry(reg) && Shows(listing, tree) && tree.Directory?
    ensures var found := ListingSearch(reg, WithoutFiles(listing), request);
      ExactRoots(reg, World(tree, false), request, Filter(Unmarked(), reg.layouts), found) && Sorted(KeyLe, found)
  {
    var kept := Filter(Unmarked(), reg.layouts);
    var reg', world := WithoutMarked(reg), World(tree, false);
    WithoutFileTest(reg, listing, request);
    FilterKeepsIds(Unmarked(), reg.layouts);
    var roots := ListedLayout(reg', listing, request);
    forall layout ensures ExactRoots(reg', world, request, [layout], roots(layout)) {
      ListingRootsAreExact(reg', listing, tree, request, layout);
    }
    CollectIsExact(reg', world, request, roots, kept);
    SortKeepsExact(reg', world, request, kept, Collect(roots, kept));
    SameExactRoots(reg, kept, world, request, ListingSearch(reg', listing, request));
  }

  /** What a root is does not depend on the other layouts of the registry. */
  lemma SameExactRoots(reg: Registry, layouts: seq<Layout>, world: World, request: Request, roots: seq<WatchRoot>)
    ensures ExactRoots(reg.(layouts := layouts), world, request, layouts, roots) <==> ExactRoots(reg, world, request, layouts, roots)
  {
    forall layout, root ensures IsRoot(reg.(layouts := layouts), world, request, layout, root) <==> IsRoot(reg, world, request, layout, root) {
    }
  }

  lemma FoundIsUnmarked(reg: Registry, world: World, request: Request, layout: Layout, root: WatchRoot, found: seq<WatchRoot>)
    requires ValidRegistry(reg) && ExactRoots(reg, world, request, Filter(Unmarked(), reg.layouts), found) && root in found
    requires layout in reg.layouts && layout.id == root.layoutId
    ensures layout.markers == []
  {
    FilterElements(Unmarked(), reg.layouts);
    var kept :| kept in Filter(Unmarked(), reg.layouts) && IsRoot(reg, world, request, kept, root);
    assert kept.id == layout.id;
  }

  lemma UnmarkedAreAll(reg: Registry, world: World, request: Request, found: seq<WatchRoot>)
    requires ExactRoots(reg, world, request, Filter(Unmarked(), reg.layouts), found)
    requires forall layout, root | layout in reg.layouts && IsRoot(reg, world, request, layout, root) :: layout.markers == []
    ensures ExactRoots(reg, world, request, reg.layouts, found)
  {
    FilterElements(Unmarked(), reg.layouts);
  }

  /** So it agrees with the live search, result for result, if and only if no layout that asks for a marker has a root. */
  lemma TwinsAgreeWithoutFileTest(reg: Registry, listing: Listing, tree: Node, request: Request)
    requires ValidRegistry(reg) && Shows(listing, tree) && tree.Directory?
    ensures LiveSearch(reg, World(tree, false), request) == ListingSearch(reg, WithoutFiles(listing), request) <==>
      forall layout, root | layout in reg.layouts && IsRoot(reg, World(tree, false), request, layout, root) :: layout.markers == []
  {
    var world := World(tree, false);
    var live, found := LiveSearch(reg, world, request), ListingSearch(reg, WithoutFiles(listing), request);
    LiveSearchIsExact(reg, world, request);
    UnmarkedSearchIsExact(reg, listing, tree, request);
    if live == found {
      forall layout, root | layout in reg.layouts && IsRoot(reg, world, request, layout, root) ensures layout.markers == [] {
        FoundIsUnmarked(reg, world, request, layout, root, found);
      }
    }
    if forall layout, root | layout in reg.layouts && IsRoot(reg, world, request, layout, root) :: layout.markers == [] {
      UnmarkedAreAll(reg, world, request, found);
      ExactSearchesAgree(reg, world, request, live, found);
    }
  }
}
