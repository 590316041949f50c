/** `watch_roots` and `resolve_watch_roots_from_listing` as the loops they are, proved against `WatchRoots`. */
module RootSearches {
  import opened Options
  import opened Ordering
  import opened SaveSelection
  import opened WatchRoots

  lemma {:induction false} EmptyFrontier(step: Step, pattern: seq<string>, j: nat)
    requires j <= |pattern| && Frontier(step, pattern[..j]) == []
    ensures Frontier(step, pattern) == []
    decreases |pattern|
  {
    if j == |pattern| {
      assert pattern[..j] == pattern;
    } else {
      assert pattern[..|pattern| - 1][..j] == pattern[..j];
      EmptyFrontier(step, pattern[..|pattern| - 1], j);
    }
  }

  lemma CollectSnoc(roots: Layout -> seq<WatchRoot>, layouts: seq<Layout>, i: nat)
    requires i < |layouts|
    ensures Collect(roots, layouts[..i + 1]) == Collect(roots, layouts[..i]) + roots(layouts[i])
  {
    assert layouts[..i + 1][..i] == layouts[..i];
  }

  lemma ExpandSnoc(step: seq<string> -> seq<seq<string>>, frontier: seq<seq<string>>, i: nat)
    requires i < |frontier|
    ensures Expand(step, frontier[..i + 1]) == Expand(step, frontier[..i]) + step(frontier[i])
  {
    assert frontier[..i + 1][..i] == frontier[..i];
  }

  lemma ExtendSnoc(path: seq<string>, keep: string -> bool, names: seq<string>, k: nat)
    requires k < |names|
    ensures Extend(path, Filter(keep, names[..k + 1])) ==
      Extend(path, Filter(keep, names[..k])) + if keep(names[k]) then [path + [names[k]]] else []
  {
    FilterSnoc(keep, names, k);
  }

  lemma ApproveSnoc(request: Request, layout: Layout, marked: seq<string> -> bool, candidates: seq<seq<string>>, i: nat)
    requires i < |candidates|
    ensures ApproveAll(request, layout, Filter(marked, candidates[..i + 1])) ==
      ApproveAll(request, layout, Filter(marked, candidates[..i])) + if marked(candidates[i]) then [Approved(request, layout, candidates[i])] else []
  {
    FilterSnoc(marked, candidates, i);
  }

  /** The `for candidate in sorted(physical.iterdir())` loop. */
  method ListLive(reg: Registry, world: World, segment: string, path: seq<string>) returns (found: seq<seq<string>>)
    requires segment in reg.tokens
    ensures found == LiveStep(reg, world, segment, path)
  {
    if !LeadsToDir(world.tree, path) || IsLink(world, path) { return []; }
    var names := Names(world.tree, path);
    ghost var keep := LiveAccepts(reg, world, segment, path);
    found := [];
    var k := 0;
    while k < |names|
      invariant k <= |names|
      invariant found == Extend(path, Filter(keep, names[..k]))
    {
      ExtendSnoc(path, keep, names, k);
      var name := names[k];
      k := k + 1;
      if !reg.accepts(segment, name) { continue; }
      if IsLink(world, path + [name]) || !LeadsToDir(world.tree, path + [name]) { continue; }
      found := found + [path + [name]];
    }
    assert names[..k] == names;
  }

  /** The `for name in list_subdirs(relative)` loop. */
  method ListListing(reg: Registry, listing: Listing, segment: string, path: seq<string>) returns (found: seq<seq<string>>)
    requires segment in reg.tokens
    ensures found == ListingStep(reg, listing, segment, path)
  {
    if path != [] && !listing.dirExists(path) { return []; }
    var names := listing.listSubdirs(path);
    ghost var keep := ListingAccepts(reg, segment);
    found := [];
    var k := 0;
    while k < |names|
      invariant k <= |names|
      invariant found == Extend(path, Filter(keep, names[..k]))
    {
      ExtendSnoc(path, keep, names, k);
      var name := names[k];
      k := k + 1;
      if !reg.accepts(segment, name) { continue; }
      found := found + [path + [name]];
    }
    assert names[..k] == names;
  }

  /** The loop over the frontier for one pattern segment, on live paths. */
  method AdvanceLive(reg: Registry, world: World, segment: string, candidates: seq<seq<string>>) returns (next: seq<seq<string>>)
    ensures next == Expand(By(Live(reg, world), segment), candidates)
  {
    next := [];
    var i := 0;
    while i < |candidates|
      invariant i <= |candidates|
      invariant next == Expand(By(Live(reg, world), segment), candidates[..i])
    {
      ExpandSnoc(By(Live(reg, world), segment), candidates, i);
      var path := candidates[i];
      if segment !in reg.tokens {
        var candidate := path + [segment];
        if !IsLink(world, candidate) && LeadsToDir(world.tree, candidate) {
          next := next + [candidate];
        }
      } else {
        var found := ListLive(reg, world, segment, path);
        next := next + found;
      }
      i := i + 1;
    }
    assert candidates[..i] == candidates;
  }

  /** The same loop on a listing. */
  method AdvanceListing(reg: Registry, listing: Listing, segment: string, candidates: seq<seq<string>>) returns (next: seq<seq<string>>)
    ensures next == Expand(By(Listed(reg, listing), segment), candidates)
  {
    next := [];
    var i := 0;
    while i < |candidates|
      invariant i <= |candidates|
      invariant next == Expand(By(Listed(reg, listing), segment), candidates[..i])
    {
      ExpandSnoc(By(Listed(reg, listing), segment), candidates, i);
      var path := candidates[i];
      if segment !in reg.tokens {
        var candidate := path + [segment];
        if listing.dirExists(candidate) {
          next := next + [candidate];
        }
      } else {
        var found := ListListing(reg, listing, segment, path);
        next := next + found;
      }
      i := i + 1;
    }
    assert candidates[..i] == candidates;
  }

  /** The loop along the pattern, with its early exit, on live paths. */
  method FollowLive(reg: Registry, world: World, remaining: seq<string>) returns (candidates: seq<seq<string>>)
    ensures candidates == Frontier(Live(reg, world), remaining)
  {
    candidates := [[]];
    var j := 0;
    while j < |remaining|
      invariant j <= |remaining|
      invariant candidates == Frontier(Live(reg, world), remaining[..j])
    {
      assert remaining[..j + 1][..j] == remaining[..j];
      candidates := AdvanceLive(reg, world, remaining[j], candidates);
      j := j + 1;
      if candidates == [] {
        EmptyFrontier(Live(reg, world), remaining, j);
        return;
      }
    }
    assert remaining[..j] == remaining;
  }

  /** The same loop on a listing. */
  method FollowListing(reg: Registry, listing: Listing, remaining: seq<string>) returns (candidates: seq<seq<string>>)
    ensures candidates == Frontier(Listed(reg, listing), remaining)
  {
    candidates := [[]];
    var j := 0;
    while j < |remaining|
      invariant j <= |remaining|
      invariant candidates == Frontier(Listed(reg, listing), remaining[..j])
    {
      assert remaining[..j + 1][..j] == remaining[..j];
      candidates := AdvanceListing(reg, listing, remaining[j], candidates);
      j := j + 1;
      if candidates == [] {
        EmptyFrontier(Listed(reg, listing), remaining, j);
        return;
      }
    }
    assert remaining[..j] == remaining;
  }

  /** One layout of `watch_roots`: the walk along the pattern and the marker tests. */
  method WalkLive(reg: Registry, world: World, request: Request, layout: Layout) returns (found: seq<WatchRoot>)
    ensures found == LiveRoots(reg, world, request, layout)
  {
    if !Asked(reg, request, layout) { return []; }
    var candidates := FollowLive(reg, world, Remaining(request, layout));
    found := [];
    ghost var marked := LiveMarked(world, layout);
    var i := 0;
    while i < |candidates|
      invariant i <= |candidates|
      invariant found == ApproveAll(request, layout, Filter(marked, candidates[..i]))
    {
      ApproveSnoc(request, layout, marked, candidates, i);
      var path := candidates[i];
      i := i + 1;
      if exists marker | marker in layout.markers :: IsLink(world, path + [marker]) || !LeadsToFile(world.tree, path + [marker]) { continue; }
      found := found + [Approved(request, layout, path)];
    }
    assert candidates[..i] == candidates;
  }

  /** One layout of `resolve_watch_roots_from_listing`. */
  method WalkListing(reg: Registry, listing: Listing, request: Request, layout: Layout) returns (found: seq<WatchRoot>)
    ensures found == ListingRoots(reg, listing, request, layout)
  {
    if !Asked(reg, request, layout) { return []; }
    var candidates := FollowListing(reg, listing, Remaining(request, layout));
    found := [];
    ghost var marked := ListingMarked(listing, layout);
    var i := 0;
    while i < |candidates|
      invariant i <= |candidates|
      invariant found == ApproveAll(request, layout, Filter(marked, candidates[..i]))
    {
      ApproveSnoc(request, layout, marked, candidates, i);
      var path := candidates[i];
      i := i + 1;
      if layout.markers != [] {
        if listing.fileExists == None { continue; }
        if exists marker | marker in layout.markers :: !listing.fileExists.value(path + [marker]) { continue; }
      }
      found := found + [Approved(request, layout, path)];
    }
    assert candidates[..i] == candidates;
  }

  /** `SaveSelectionPolicy.watch_roots` */
  method ResolveWatchRoots(reg: Registry, world: World, request: Request) returns (resolved: seq<WatchRoot>)
    ensures resolved == LiveSearch(reg, world, request)
  {
    if !world.tree.Directory? { return []; }
    resolved := [];
    var i := 0;
    while i < |reg.layouts|
      invariant i <= |reg.layouts|
      invariant resolved == Collect(LiveLayout(reg, world, request), reg.layouts[..i])
    {
      CollectSnoc(LiveLayout(reg, world, request), reg.layouts, i);
      var found := WalkLive(reg, world, request, reg.layouts[i]);
      resolved := resolved + found;
      i := i + 1;
    }
    assert reg.layouts[..i] == reg.layouts;
    resolved := Sort(KeyLe, resolved);
  }

  /** `SaveSelectionPolicy.resolve_watch_roots_from_listing` */
  method ResolveWatchRootsFromListing(reg: Registry, listing: Listing, request: Request) returns (resolved: seq<WatchRoot>)
    ensures resolved == ListingSearch(reg, listing, request)
  {
    resolved := [];
    var i := 0;
    while i < |reg.layouts|
      invariant i <= |reg.layouts|
      invariant resolved == Collect(ListedLayout(reg, listing, request), reg.layouts[..i])
    {
      CollectSnoc(ListedLayout(reg, listing, request), reg.layouts, i);
      var found := WalkListing(reg, listing, request, reg.layouts[i]);
      resolved := resolved + found;
      i := i + 1;
    }
    assert reg.layouts[..i] == reg.layouts;
    resolved := Sort(KeyLe, resolved);
  }
}
