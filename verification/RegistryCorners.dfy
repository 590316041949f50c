/** Small registries on which grouping, discovery and the two searches part from what one would expect. */
module RegistryCorners {
  import opened Options
  import opened PosixPaths
  import opened Ordering
  import opened SaveSelection
  import opened WatchRoots
  import opened SaveDiscovery
  import opened GroupKeys
  import opened SaveGroups

  function Hex32(token: string, name: string): bool {
    |name| == 32 && forall c | c in name :: '0' <= c <= '9' || 'a' <= c <= 'f' || 'A' <= c <= 'F'
  }

  /** One layout and one token; every file is eligible and nothing is folded or stripped. */
  function OneLayout(layout: Layout): Registry {
    Registry([layout], {"{hex32}"}, Hex32, (path, pattern) => true, c => c, s => s, s => s)
  }

  const STEMS := Layout("stems", "snes", "", false, ["*"], [], false, ByRootStem, false, false, NoContainer, [])

  const HASHES := Layout("hashes", "ymir", "{hex32}", false, ["*"], [], false, ByRoot, false, false, NoContainer, [])

  lemma OneSegment(s: string)
    requires '/' !in s && '\\' !in s && Moves(s)
    ensures Segments(s) == [s] && Segments("") == []
  {
    assert Slashes(s) == s && Slashes("") == "";
    PartsOfJoin([s]);
    PartsOfJoin([]);
  }

  lemma HashesAreClean()
    ensures forall token: string, name: string | Hex32(token, name) :: Clean(name)
  {
    forall token: string, name: string | Hex32(token, name) ensures Clean(name) {
      assert name[0] in name;
    }
  }

  lemma OneLayoutIsValid(layout: Layout)
    requires Clean(layout.system) && layout.system != "{hex32}" && ".." !in Segments(layout.rootPattern)
    ensures ValidRegistry(OneLayout(layout)) && layout in OneLayout(layout).layouts
  {
    HashesAreClean();
    assert ValidLayout(OneLayout(layout), layout);
  }

  lemma StemsAreValid()
    ensures ValidRegistry(OneLayout(STEMS)) && STEMS in OneLayout(STEMS).layouts
    ensures Segments("") == [] && Pattern(STEMS) == ["snes"] && "snes" !in OneLayout(STEMS).tokens
  {
    OneSegment("{hex32}");
    assert |"snes"| != |"{hex32}"|;
    OneLayoutIsValid(STEMS);
  }

  lemma HashPattern()
    ensures Segments("{hex32}") == ["{hex32}"] && Pattern(HASHES) == ["ymir", "{hex32}"]
  {
    OneSegment("{hex32}");
  }

  lemma HashesAreValid()
    ensures ValidRegistry(OneLayout(HASHES)) && HASHES in OneLayout(HASHES).layouts
    ensures Pattern(HASHES) == ["ymir", "{hex32}"] && "ymir" !in OneLayout(HASHES).tokens
  {
    HashPattern();
    assert |"ymir"| != |"{hex32}"| && |".."| != |"{hex32}"|;
    assert ".." !in ["{hex32}"];
    OneLayoutIsValid(HASHES);
  }

  // ---- a state file apart from its ROM ---------------------------------------------------------

  lemma StemFileIsCovered(name: string)
    requires Clean(name)
    ensures Covers(OneLayout(STEMS), STEMS, ["snes", name])
  {
    var reg := OneLayout(STEMS);
    StemsAreValid();
    CanonicalSegmentsOfJoin([name]);
    assert ["snes", name][1..] == [name];
    assert [name][..0] == [] && [name][0..] == [name];
    assert reg.glob(Join([name]), "*") && "*" in STEMS.eligible;
    assert Admits(reg, STEMS, [name]);
  }

  lemma StemFileHasGroup(name: string)
    requires Clean(name)
    ensures ValidRegistry(OneLayout(STEMS)) && GroupForPath(OneLayout(STEMS), Join(["snes", name])).Some?
    ensures HasGroup(OneLayout(STEMS), STEMS, ["snes", name], GroupForPath(OneLayout(STEMS), Join(["snes", name])).value.id)
  {
    var reg, segments := OneLayout(STEMS), ["snes", name];
    StemsAreValid();
    StemFileIsCovered(name);
    assert Clean("snes");
    GroupIsOfMostLiteralLayout(reg, segments, STEMS);
    var k: nat :| GroupedBy(reg, k, segments);
    assert reg.layouts[k] == STEMS;
  }

  lemma NothingIsFolded(s: string)
    ensures Fold(OneLayout(STEMS), s) == s && FoldKeepsMarkers(OneLayout(STEMS))
  {
  }

  const STATE_FILE := "g" + STATE + SAVESTAT

  /** `g.state.savestat` is covered by a layout that groups by stem, and yet not in the group of the ROM `g.sfc`. */
  lemma StateFileApartFromRom()
    ensures var reg, group := OneLayout(STEMS), GroupForPath(OneLayout(STEMS), Join(["snes", STATE_FILE]));
      && ValidRegistry(reg) && FoldKeepsMarkers(reg) && group.Some? && group.value.layoutId == STEMS.id
      && GroupIdForRom(reg, STEMS.id, "g" + "." + "sfc") != Some(group.value.id)
  {
    var reg := OneLayout(STEMS);
    assert Clean(STATE_FILE);
    StemFileHasGroup(STATE_FILE);
    NothingIsFolded("g");
    NothingIsFolded(SAVESTAT);
    NoMarkerInOneLetter("g");
    assert OccursAt(SAVESTAT, SAVESTAT, 0);
    StateFileSharesRomGroup(reg, STEMS, ["snes", STATE_FILE], GroupForPath(reg, Join(["snes", STATE_FILE])).value.id, "g", SAVESTAT, "sfc");
  }

  lemma NoMarkerInOneLetter(s: string)
    requires |s| == 1
    ensures MarkerFree(s)
  {
    forall k: nat ensures !OccursAt(s, SAVESTAT, k) && !OccursAt(s, STATE, k) {
      if k <= |s| { assert |s[k..]| <= 1; }
    }
  }

  // ---- a discovered file without a group ---------------------------------------------------------

  const ODD_NAME := "a\\b"

  function OddDirectory(): Node {
    Directory(map[ODD_NAME := RegularFile])
  }

  function OddTree(): Node {
    Directory(map["snes" := OddDirectory()])
  }

  const NOWHERE: seq<string> := []

  lemma LookupChild(children: map<string, Node>, path: seq<string>)
    requires path != []
    ensures Lookup(Directory(children), path) == if path[0] in children then Lookup(children[path[0]], path[1..]) else None
  {
  }

  lemma OddPaths(path: seq<string>)
    ensures Lookup(OddTree(), path).Some? ==> path == [] || path == ["snes"] || path == ["snes", ODD_NAME]
  {
    if path != [] {
      LookupChild(map["snes" := OddDirectory()], path);
      if path[1..] != [] { LookupChild(map[ODD_NAME := RegularFile], path[1..]); }
    }
  }

  lemma OddTreeIsPosix()
    ensures PosixTree(OddTree()) && IsFile(OddTree(), ["snes", ODD_NAME]) && IsDir(OddTree(), ["snes"])
  {
    assert ["snes", ODD_NAME][1..] == [ODD_NAME] && ["snes"][1..] == NOWHERE && [ODD_NAME][1..] == NOWHERE;
    LookupChild(map["snes" := OddDirectory()], ["snes", ODD_NAME]);
    LookupChild(map["snes" := OddDirectory()], ["snes"]);
    LookupChild(map[ODD_NAME := RegularFile], [ODD_NAME]);
    assert FileName("snes") && FileName(ODD_NAME);
    forall path, name | Lookup(OddTree(), path).Some? && name in path ensures FileName(name) {
      OddPaths(path);
    }
  }

  const ODD_WORLD := World(OddTree(), false)

  const EVERYTHING := Request({}, [])

  const ODD_ROOT := WatchRoot("stems", ["snes"], "snes", false)

  lemma OddRootIsFound()
    ensures ValidRegistry(OneLayout(STEMS)) && ODD_ROOT in LiveSearch(OneLayout(STEMS), ODD_WORLD, EVERYTHING)
  {
    var reg := OneLayout(STEMS);
    StemsAreValid();
    OddTreeIsPosix();
    assert Remaining(EVERYTHING, STEMS) == ["snes"];
    assert [] + ["snes"] == ["snes"];
    assert ODD_ROOT == Approved(EVERYTHING, STEMS, ["snes"]);
    assert IsRoot(reg, ODD_WORLD, EVERYTHING, STEMS, ODD_ROOT);
    LiveSearchIsExact(reg, ODD_WORLD, EVERYTHING);
  }

  lemma OddFileIsDiscovered()
    ensures Discovered(OneLayout(STEMS), ODD_WORLD, EVERYTHING, STEMS, ODD_ROOT, [ODD_NAME])
  {
    var reg := OneLayout(STEMS);
    OddRootIsFound();
    OddTreeIsPosix();
    assert ["snes"] + [ODD_NAME] == ["snes", ODD_NAME];
    assert reg.glob(Join([ODD_NAME]), "*") && "*" in STEMS.eligible;
    assert STEMS in reg.layouts;
  }

  /** A file whose name holds a backslash is found below its watch root, passes its layout's tests, and has no group. */
  lemma DiscoveredFileWithoutGroup()
    ensures ValidRegistry(OneLayout(STEMS)) && PosixTree(ODD_WORLD.tree)
    ensures Discovered(OneLayout(STEMS), ODD_WORLD, EVERYTHING, STEMS, ODD_ROOT, [ODD_NAME])
    ensures GroupForPath(OneLayout(STEMS), CanonicalPath(ODD_ROOT, [ODD_NAME])) == None
  {
    OddRootIsFound();
    OddTreeIsPosix();
    OddFileIsDiscovered();
    DiscoveredFilesHaveGroups(OneLayout(STEMS), ODD_WORLD, EVERYTHING, STEMS, ODD_ROOT, [ODD_NAME]);
    assert '\\' in ODD_NAME && ODD_NAME in [ODD_NAME];
  }

  // ---- roots that only one search finds -------------------------------------------------------------

  const HASH := "0123456789abcdef0123456789abcdef"

  function HashTree(): Node {
    Directory(map[HASH := Directory(map[])])
  }

  function IsSubdir(tree: Node, path: seq<string>): string -> bool {
    name => IsDir(tree, path + [name])
  }

  function Subdirs(tree: Node, path: seq<string>): seq<string> {
    if IsDir(tree, path) then Filter(IsSubdir(tree, path), Names(tree, path)) else []
  }

  /** A listing of a tree. */
  function ListingOf(tree: Node): Listing {
    Listing(path => IsDir(tree, path), path => Subdirs(tree, path), Some(path => IsFile(tree, path)))
  }

  lemma SubdirsOf(tree: Node, path: seq<string>)
    ensures Distinct(Subdirs(tree, path)) && forall name :: name in Subdirs(tree, path) <==> IsDir(tree, path + [name])
  {
    if IsDir(tree, path) {
      FilterDistinct(IsSubdir(tree, path), Names(tree, path));
      FilterElements(IsSubdir(tree, path), Names(tree, path));
    }
    forall name ensures name in Subdirs(tree, path) <==> IsDir(tree, path + [name]) {
      LookupStep(tree, path, name);
    }
  }

  lemma ListingOfShows(tree: Node)
    ensures Shows(ListingOf(tree), tree)
  {
    forall path ensures Distinct(Subdirs(tree, path)) && forall name :: name in Subdirs(tree, path) <==> IsDir(tree, path + [name]) {
      SubdirsOf(tree, path);
    }
  }

  const BELOW_YMIR := Request({}, ["ymir"])

  lemma HashIsDirectory()
    ensures IsDir(HashTree(), [HASH]) && |HASH| == 32 && Hex32("{hex32}", HASH)
  {
    LookupChild(map[HASH := Directory(map[])], [HASH]);
    assert [HASH][1..] == NOWHERE;
  }

  lemma HashIsRoot()
    ensures ValidRegistry(OneLayout(HASHES)) && Asked(OneLayout(HASHES), BELOW_YMIR, HASHES)
    ensures Remaining(BELOW_YMIR, HASHES) == ["{hex32}"]
    ensures IsRoot(OneLayout(HASHES), World(HashTree(), false), BELOW_YMIR, HASHES, Approved(BELOW_YMIR, HASHES, [HASH]))
  {
    HashesAreValid();
    HashIsDirectory();
    assert SegmentsMatch(OneLayout(HASHES), ["{hex32}"], [HASH]);
  }

  /** Behind a linked root, with a prefix that leaves a token to begin with, only the listing search finds the root. */
  lemma LinkedRootHidesHash()
    ensures var reg, root := OneLayout(HASHES), Approved(BELOW_YMIR, HASHES, [HASH]);
      && ValidRegistry(reg) && Shows(ListingOf(HashTree()), HashTree())
      && root in ListingSearch(reg, ListingOf(HashTree()), BELOW_YMIR) && root !in LiveSearch(reg, World(HashTree(), true), BELOW_YMIR)
  {
    var reg, root := OneLayout(HASHES), Approved(BELOW_YMIR, HASHES, [HASH]);
    HashIsRoot();
    ListingOfShows(HashTree());
    assert HASHES in reg.layouts;
    ListingSearchIsExact(reg, ListingOf(HashTree()), HashTree(), BELOW_YMIR);
    LinkedRootHidesListings(reg, ListingOf(HashTree()), HashTree(), BELOW_YMIR, HASHES, root);
  }

  /** With a root that is no directory, and a prefix that leaves nothing to search, only the listing search finds it. */
  lemma AbsentRootIsListed()
    ensures var reg, request := OneLayout(STEMS), Request({}, ["snes"]);
      && ValidRegistry(reg) && Shows(ListingOf(RegularFile), RegularFile)
      && LiveSearch(reg, World(RegularFile, false), request) == []
      && Approved(request, STEMS, []) in ListingSearch(reg, ListingOf(RegularFile), request)
  {
    var reg, request := OneLayout(STEMS), Request({}, ["snes"]);
    StemsAreValid();
    ListingOfShows(RegularFile);
    assert Remaining(request, STEMS) == [];
    assert Bare(reg, request, STEMS);
    ListingOfNothing(reg, ListingOf(RegularFile), RegularFile, request, Approved(request, STEMS, []));
  }
}
