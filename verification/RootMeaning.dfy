/** What the two searches return, in terms of layouts, paths and the tree alone. */
module RootMeaning {
  import opened Options
  import opened PosixPaths
  import opened Ordering
  import opened SaveSelection
  import opened WatchRoots

  /**
   * A layout describes a watch root: the system is asked for, prefix and path together spell out the layout's pattern,
   * the prefix without the help of a token, and the path leads to a real directory with the markers in it.
   */
  ghost predicate Describes(reg: Registry, world: World, request: Request, layout: Layout, root: WatchRoot) {
    var pattern, prefix := [layout.system] + Segments(layout.rootPattern), request.prefix;
    && root.layoutId == layout.id && root.recursive == layout.recursive && root.canonicalRoot == Join(prefix + root.path)
    && (layout.requiresOptIn ==> layout.system in request.optIns)
    && SegmentsMatch(reg, pattern, prefix + root.path) && (forall k | 0 <= k < |prefix| :: pattern[k] !in reg.tokens)
    && IsDir(world.tree, root.path)
    && (forall marker | marker in layout.markers :: IsFile(world.tree, root.path + [marker]))
    && (world.rootIsLink && |prefix| < |pattern| ==> pattern[|prefix|] !in reg.tokens)
  }

  lemma RootIsDescribed(reg: Registry, world: World, request: Request, layout: Layout, root: WatchRoot)
    ensures IsRoot(reg, world, request, layout, root) <==> Describes(reg, world, request, layout, root)
  {
    var pattern, prefix, full := Pattern(layout), request.prefix, request.prefix + root.path;
    if IsRoot(reg, world, request, layout, root) {
      forall k | 0 <= k < |pattern| ensures SegmentMatches(reg, pattern[k], full[k]) {
        if k >= |prefix| { assert pattern[k] == Remaining(request, layout)[k - |prefix|]; }
      }
    }
    if Describes(reg, world, request, layout, root) {
      forall k | 0 <= k < |prefix| ensures pattern[k] == prefix[k] {
        assert SegmentMatches(reg, pattern[k], full[k]);
      }
      forall k | 0 <= k < |root.path| ensures SegmentMatches(reg, Remaining(request, layout)[k], root.path[k]) {
        assert SegmentMatches(reg, pattern[k + |prefix|], full[k + |prefix|]);
      }
    }
  }

  /** Ordered by canonical root and then by layout, with no result twice. */
  ghost predicate InOrder(roots: seq<WatchRoot>) {
    forall i, j | 0 <= i < j < |roots| ::
      || Lt(roots[i].canonicalRoot, roots[j].canonicalRoot)
      || (roots[i].canonicalRoot == roots[j].canonicalRoot && Lt(roots[i].layoutId, roots[j].layoutId))
  }

  ghost predicate Finds(reg: Registry, world: World, request: Request, roots: seq<WatchRoot>) {
    && InOrder(roots)
    && forall root :: root in roots <==> exists layout :: layout in reg.layouts && Describes(reg, world, request, layout, root)
  }

  lemma ExactRootsAreFound(reg: Registry, world: World, request: Request, roots: seq<WatchRoot>)
    requires ValidRegistry(reg) && ExactRoots(reg, world, request, reg.layouts, roots) && Sorted(KeyLe, roots)
    ensures Finds(reg, world, request, roots)
  {
    KeysAreUnique(reg, world, request, roots);
    forall i, j | 0 <= i < j < |roots|
      ensures Lt(roots[i].canonicalRoot, roots[j].canonicalRoot)
        || (roots[i].canonicalRoot == roots[j].canonicalRoot && Lt(roots[i].layoutId, roots[j].layoutId))
    {
      KeysDiffer(roots, i, j);
    }
    forall layout, root ensures IsRoot(reg, world, request, layout, root) <==> Describes(reg, world, request, layout, root) {
      RootIsDescribed(reg, world, request, layout, root);
    }
  }

  lemma KeysDiffer(roots: seq<WatchRoot>, i: nat, j: nat)
    requires i < j < |roots| && Sorted(KeyLe, roots) && Distinct(roots) && AntisymmetricOn(KeyLe, multiset(roots))
    ensures Lt(roots[i].canonicalRoot, roots[j].canonicalRoot)
      || (roots[i].canonicalRoot == roots[j].canonicalRoot && Lt(roots[i].layoutId, roots[j].layoutId))
  {
    var a, b := roots[i], roots[j];
    assert KeyLe(a, b) && a != b && a in multiset(roots) && b in multiset(roots);
    EqualKeys(a, b);
  }

  lemma EqualKeys(a: WatchRoot, b: WatchRoot)
    ensures a.canonicalRoot == b.canonicalRoot && a.layoutId == b.layoutId ==> KeyLe(b, a)
  {
    LeTotal(b.layoutId, b.layoutId);
  }

  /** The live search finds, in order and once each, exactly the roots that a registered layout describes. */
  lemma LiveSearchFinds(reg: Registry, world: World, request: Request)
    requires ValidRegistry(reg) && world.tree.Directory?
    ensures Finds(reg, world, request, LiveSearch(reg, world, request))
  {
    LiveSearchIsExact(reg, world, request);
    ExactRootsAreFound(reg, world, request, LiveSearch(reg, world, request));
  }

  /** And so does the listing search where its listing shows the tree, which says nothing of links. */
  lemma ListingSearchFinds(reg: Registry, listing: Listing, tree: Node, request: Request)
    requires ValidRegistry(reg) && Shows(listing, tree) && tree.Directory?
    ensures Finds(reg, World(tree, false), request, ListingSearch(reg, listing, request))
  {
    ListingSearchIsExact(reg, listing, tree, request);
    ExactRootsAreFound(reg, World(tree, false), request, ListingSearch(reg, listing, request));
  }
}
