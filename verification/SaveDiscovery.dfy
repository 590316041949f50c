/** Discovery and grouping agree: every eligible file below a resolved watch root has a group. */
module SaveDiscovery {
  import opened Options
  import opened PosixPaths
  import opened SaveSelection
  import opened WatchRoots

  /** What a POSIX directory can hold. */
  predicate FileName(name: string) {
    name != "" && name != "." && name != ".." && '/' !in name
  }

  ghost predicate PosixTree(tree: Node) {
    forall path, name | Lookup(tree, path).Some? && name in path :: FileName(name)
  }

  predicate HasBackslash(segments: seq<string>) {
    exists segment | segment in segments :: '\\' in segment
  }

  /** The canonical path a scan gives to a file below a watch root. */
  function CanonicalPath(root: WatchRoot, remainder: seq<string>): string {
    root.canonicalRoot + "/" + Join(remainder)
  }

  /** A file that a scan finds below a watch root of the live search, and that passes the tests of the root's layout. */
  ghost predicate Discovered(reg: Registry, world: World, request: Request, layout: Layout, root: WatchRoot, remainder: seq<string>) {
    && root in LiveSearch(reg, world, request) && layout in reg.layouts && layout.id == root.layoutId
    && IsFile(world.tree, root.path + remainder) && Admits(reg, layout, remainder)
  }

  /** What matching sees of a discovered file: the pattern's segments, then the names below the root. */
  lemma DiscoveredPath(reg: Registry, world: World, request: Request, layout: Layout, root: WatchRoot, remainder: seq<string>)
    returns (matched: seq<string>)
    requires ValidRegistry(reg) && world.tree.Directory? && PosixTree(world.tree)
    requires Discovered(reg, world, request, layout, root, remainder)
    ensures matched == request.prefix + root.path && Fits(reg, layout, matched, remainder)
    ensures CanonicalPath(root, remainder) == Join(matched + remainder)
  {
    LiveSearchIsExact(reg, world, request);
    OnlyOwnLayout(reg, world, request, layout, root, LiveSearch(reg, world, request));
    matched := request.prefix + root.path;
    FullPath(reg, world, request, layout, root);
    JoinConcat(matched, remainder);
    forall segment | segment in remainder ensures FileName(segment) {
      assert segment in root.path + remainder;
    }
  }

  /** Segments that match a layout's pattern, followed by names it admits. */
  ghost predicate Fits(reg: Registry, layout: Layout, matched: seq<string>, remainder: seq<string>) {
    && ValidRegistry(reg) && layout in reg.layouts && SegmentsMatch(reg, Pattern(layout), matched)
    && Admits(reg, layout, remainder) && forall name | name in remainder :: FileName(name)
  }

  /** The group of a path is described by a layout with no more tokens than this one. */
  ghost predicate GroupedNoLooser(reg: Registry, layout: Layout, segments: seq<string>) {
    && segments != []
    && exists k: nat :: GroupedBy(reg, k, segments) && DynamicSegments(reg, reg.layouts[k]) <= DynamicSegments(reg, layout)
  }

  lemma FittingSegments(reg: Registry, layout: Layout, matched: seq<string>, remainder: seq<string>)
    requires Fits(reg, layout, matched, remainder)
    ensures matched != [] && matched[0] == layout.system && remainder != []
    ensures forall name | name in matched + remainder :: FileName(name) && ('\\' in name ==> name in remainder)
  {
    MatchedSegmentsAreClean(reg, layout, matched);
  }

  /** Reading a canonical path back: it is refused exactly if it holds a backslash. */
  lemma ReadBack(remainder: seq<string>, parts: seq<string>)
    requires parts != [] && forall name | name in parts :: FileName(name) && ('\\' in name ==> name in remainder)
    requires forall name | name in remainder :: name in parts
    ensures CanonicalSegments(Join(parts)) == if HasBackslash(remainder) then None else Some(parts)
  {
    CanonicalSegmentsOfJoin(parts);
    if HasBackslash(remainder) {
      var name :| name in remainder && '\\' in name;
      assert name in parts && !Clean(name);
    } else {
      forall name | name in parts ensures Clean(name) {}
    }
  }

  lemma FittingPathMatches(reg: Registry, layout: Layout, matched: seq<string>, remainder: seq<string>)
    requires Fits(reg, layout, matched, remainder)
    ensures matched != []
    ensures MatchLayout(reg, layout, Join((matched + remainder)[1..])) ==
            if HasBackslash(remainder) then None else Some(Match(matched[1..], remainder))
  {
    FittingSegments(reg, layout, matched, remainder);
    var roots, parts := Segments(layout.rootPattern), matched[1..] + remainder;
    assert (matched + remainder)[1..] == parts;
    forall name | name in parts ensures FileName(name) && ('\\' in name ==> name in remainder) {
      assert name in matched + remainder;
    }
    ReadBack(remainder, parts);
    if !HasBackslash(remainder) {
      assert parts[..|roots|] == matched[1..] && parts[|roots|..] == remainder;
      forall k | 0 <= k < |roots| ensures SegmentMatches(reg, roots[k], parts[k]) {
        assert SegmentMatches(reg, Pattern(layout)[k + 1], matched[k + 1]);
      }
    }
  }

  lemma FittingPathHasGroup(reg: Registry, layout: Layout, matched: seq<string>, remainder: seq<string>)
    requires Fits(reg, layout, matched, remainder)
    ensures matched != []
    ensures GroupForPath(reg, Join(matched + remainder)).Some? <==> !HasBackslash(remainder)
    ensures !HasBackslash(remainder) ==> GroupedNoLooser(reg, layout, matched + remainder)
  {
    var full := matched + remainder;
    FittingSegments(reg, layout, matched, remainder);
    FittingPathMatches(reg, layout, matched, remainder);
    ReadBack(remainder, full);
    if !HasBackslash(remainder) {
      forall name | name in full ensures Clean(name) {
        assert name in remainder ==> '\\' !in name;
      }
      assert Covers(reg, layout, full);
      GroupIsOfMostLiteralLayout(reg, full, layout);
      var k: nat :| GroupedBy(reg, k, full);
      var j :| 0 <= j < |reg.layouts| && reg.layouts[j] == layout;
      assert Covers(reg, reg.layouts[j], full);
    }
  }

  /** `_match_layout` finds exactly the root and the remainder again, unless a file name holds a backslash. */
  lemma DiscoveredFilesMatch(reg: Registry, world: World, request: Request, layout: Layout, root: WatchRoot, remainder: seq<string>)
    requires ValidRegistry(reg) && world.tree.Directory? && PosixTree(world.tree)
    requires Discovered(reg, world, request, layout, root, remainder)
    ensures var matched := request.prefix + root.path;
      && matched != [] && CanonicalPath(root, remainder) == layout.system + "/" + Join((matched + remainder)[1..])
      && MatchLayout(reg, layout, Join((matched + remainder)[1..])) ==
           if HasBackslash(remainder) then None else Some(Match(matched[1..], remainder))
  {
    var matched := DiscoveredPath(reg, world, request, layout, root, remainder);
    FittingSegments(reg, layout, matched, remainder);
    FittingPathMatches(reg, layout, matched, remainder);
  }

  /**
   * A discovered file has a group exactly when no name below its root holds a backslash, and the group is that of a
   * layout which covers the path with no more tokens than the one that led to it.
   */
  lemma DiscoveredFilesHaveGroups(reg: Registry, world: World, request: Request, layout: Layout, root: WatchRoot, remainder: seq<string>)
    requires ValidRegistry(reg) && world.tree.Directory? && PosixTree(world.tree)
    requires Discovered(reg, world, request, layout, root, remainder)
    ensures GroupForPath(reg, CanonicalPath(root, remainder)).Some? <==> !HasBackslash(remainder)
    ensures !HasBackslash(remainder) ==> GroupedNoLooser(reg, layout, request.prefix + root.path + remainder)
  {
    var matched := DiscoveredPath(reg, world, request, layout, root, remainder);
    FittingPathHasGroup(reg, layout, matched, remainder);
  }
}
