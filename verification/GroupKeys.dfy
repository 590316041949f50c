/** Which paths have a group, and which of them share one, for every way of grouping. */
module GroupKeys {
  import opened Options
  import opened PosixPaths
  import opened Ordering
  import opened SaveSelection

  // ---- which layout describes a path -------------------------------------------------------

  /** How many segments of a path below its system belong to the root of a layout. */
  function RootDepth(layout: Layout): nat {
    |Segments(layout.rootPattern)|
  }

  /** A path lies in a layout: system, root segments, depth, exclusions and eligible files all agree. */
  ghost predicate LiesIn(reg: Registry, layout: Layout, segments: seq<string>) {
    var r, roots := RootDepth(layout), Segments(layout.rootPattern);
    && |segments| > r + 1 && segments[0] == layout.system
    && (forall k | 0 <= k < r :: if roots[k] in reg.tokens then reg.accepts(roots[k], segments[k + 1]) else segments[k + 1] == roots[k])
    && (|segments| == r + 2 || layout.recursive)
    && (forall pattern | pattern in layout.exclusions :: !reg.glob(Join(segments[r + 1..]), pattern))
    && (exists pattern | pattern in layout.eligible :: reg.glob(Join(segments[r + 1..]), pattern))
  }

  lemma CoversExactlyWhat(reg: Registry, layout: Layout, segments: seq<string>)
    requires |segments| >= 2 && forall segment | segment in segments :: Clean(segment)
    ensures Covers(reg, layout, segments) <==> LiesIn(reg, layout, segments)
    ensures Covers(reg, layout, segments) ==>
      MatchLayout(reg, layout, Join(segments[1..])) == Some(Match(segments[1..RootDepth(layout) + 1], segments[RootDepth(layout) + 1..]))
  {
    var r, roots, parts := RootDepth(layout), Segments(layout.rootPattern), segments[1..];
    CanonicalSegmentsOfJoin(parts);
    if |parts| > r {
      assert parts[..r] == segments[1..r + 1] && parts[r..] == segments[r + 1..];
      assert forall k | 0 <= k < r :: parts[..r][k] == segments[k + 1];
    }
  }

  /** A path has a group exactly if its spelling is canonical, it names more than a system, and it lies in some layout. */
  lemma HasGroupExactlyWhenItLies(reg: Registry, path: string)
    ensures GroupForPath(reg, path).Some? <==>
      && (forall segment | segment in Split(path) :: Clean(segment)) && |Split(path)| >= 2
      && exists layout :: layout in reg.layouts && LiesIn(reg, layout, Split(path))
  {
    var segments := Split(path);
    JoinSplit(path);
    SplitSegmentsHaveNoSlash(path);
    CanonicalSegmentsOfJoin(segments);
    if (forall segment | segment in segments :: Clean(segment)) && |segments| >= 2 {
      forall layout ensures Covers(reg, layout, segments) <==> LiesIn(reg, layout, segments) {
        CoversExactlyWhat(reg, layout, segments);
      }
      if layout :| layout in reg.layouts && Covers(reg, layout, segments) {
        GroupIsOfMostLiteralLayout(reg, segments, layout);
      } else {
        UncoveredHasNoGroup(reg, segments);
      }
    }
  }

  /** The places of a root pattern that hold a token. */
  function TokenPlaces(reg: Registry, pattern: seq<string>): set<nat> {
    set k: nat | k < |pattern| && pattern[k] in reg.tokens
  }

  lemma {:induction false} TokensAreCounted(reg: Registry, pattern: seq<string>)
    ensures |Filter(segment => segment in reg.tokens, pattern)| == |TokenPlaces(reg, pattern)|
  {
    var token: string -> bool := segment => segment in reg.tokens;
    if pattern != [] {
      var n := |pattern| - 1;
      TokensAreCounted(reg, pattern[..n]);
      FilterSnoc(token, pattern, n);
      assert pattern[..n + 1] == pattern;
      assert TokenPlaces(reg, pattern) == TokenPlaces(reg, pattern[..n]) + if pattern[n] in reg.tokens then {n} else {};
    }
  }

  /** No layout in which the path lies has fewer tokens in its root, nor as many and an earlier place in the registry. */
  ghost predicate FewestTokens(reg: Registry, k: nat, segments: seq<string>) {
    && k < |reg.layouts| && LiesIn(reg, reg.layouts[k], segments)
    && forall j | 0 <= j < |reg.layouts| && LiesIn(reg, reg.layouts[j], segments) ::
         var dj := |TokenPlaces(reg, Segments(reg.layouts[j].rootPattern))|;
         var dk := |TokenPlaces(reg, Segments(reg.layouts[k].rootPattern))|;
         dk < dj || (dk == dj && k <= j)
  }

  /** What a group says beside its identifier. */
  ghost predicate Described(layout: Layout, segments: seq<string>, g: Group)
    requires segments != []
  {
    && g.layoutId == layout.id && g.system == segments[0] && g.shared == layout.shared
    && g.containerId ==
         (match layout.containerKind
          case NoContainer => ""
          case FileContainer => Join(segments)
          case DirectoryContainer => if RootDepth(layout) < |segments| then Join(segments[..RootDepth(layout) + 1]) else "")
  }

  lemma MostLiteralHasFewestTokens(reg: Registry, k: nat, segments: seq<string>)
    requires |segments| >= 2 && (forall segment | segment in segments :: Clean(segment)) && MostLiteral(reg, k, segments)
    ensures FewestTokens(reg, k, segments)
  {
    CoversExactlyWhat(reg, reg.layouts[k], segments);
    forall j | 0 <= j < |reg.layouts|
      ensures Covers(reg, reg.layouts[j], segments) <==> LiesIn(reg, reg.layouts[j], segments)
      ensures DynamicSegments(reg, reg.layouts[j]) == |TokenPlaces(reg, Segments(reg.layouts[j].rootPattern))|
    {
      CoversExactlyWhat(reg, reg.layouts[j], segments);
      TokensAreCounted(reg, Segments(reg.layouts[j].rootPattern));
    }
  }

  lemma MatchOfPath(reg: Registry, layout: Layout, segments: seq<string>)
    requires |segments| >= 2 && (forall segment | segment in segments :: Clean(segment)) && Covers(reg, layout, segments)
    ensures |segments| > RootDepth(layout) + 1 && layout.system == segments[0]
    ensures MatchLayout(reg, layout, Join(segments[1..])) == Some(Match(RootOf(layout, segments), BelowRoot(layout, segments)))
  {
    CoversExactlyWhat(reg, layout, segments);
  }

  lemma DescribedByLayout(reg: Registry, layout: Layout, segments: seq<string>)
    requires |segments| > RootDepth(layout) + 1 && layout.system == segments[0]
    ensures var g := Describe(reg, layout, Join(segments), Match(RootOf(layout, segments), BelowRoot(layout, segments)));
      Described(layout, segments, g) && g.id == layout.id + "/" + GroupKey(reg, layout, RootOf(layout, segments), BelowRoot(layout, segments))
  {
    assert [segments[0]] + RootOf(layout, segments) == segments[..RootDepth(layout) + 1];
  }

  /** The group of a path is described by the layout with the fewest tokens in which it lies, the earliest of them. */
  lemma GroupIsOfFewestTokens(reg: Registry, segments: seq<string>) returns (k: nat)
    requires |segments| >= 2 && (forall segment | segment in segments :: Clean(segment)) && GroupForPath(reg, Join(segments)).Some?
    ensures FewestTokens(reg, k, segments) && Described(reg.layouts[k], segments, GroupForPath(reg, Join(segments)).value)
    ensures GroupForPath(reg, Join(segments)).value.id ==
      reg.layouts[k].id + "/" + GroupKey(reg, reg.layouts[k], RootOf(reg.layouts[k], segments), BelowRoot(reg.layouts[k], segments))
  {
    GroupHasLayout(reg, segments);
    k :| GroupedBy(reg, k, segments);
    MostLiteralHasFewestTokens(reg, k, segments);
    MatchOfPath(reg, reg.layouts[k], segments);
    DescribedByLayout(reg, reg.layouts[k], segments);
  }

  // ---- folded paths ----------------------------------------------------------------------------

  lemma FoldConcat(reg: Registry, a: string, b: string)
    ensures Fold(reg, a + b) == Fold(reg, a) + Fold(reg, b)
  {
  }

  /** Folding leaves slashes alone and makes none. */
  ghost predicate FoldKeepsSlashes(reg: Registry) {
    forall c :: reg.fold(c) == '/' <==> c == '/'
  }

  function FoldEach(reg: Registry, segments: seq<string>): (r: seq<string>)
    ensures |r| == |segments| && forall k | 0 <= k < |r| :: r[k] == Fold(reg, segments[k])
  {
    seq(|segments|, k requires 0 <= k < |segments| => Fold(reg, segments[k]))
  }

  lemma {:induction false} FoldOfJoin(reg: Registry, segments: seq<string>)
    requires FoldKeepsSlashes(reg)
    ensures Fold(reg, Join(segments)) == Join(FoldEach(reg, segments))
  {
    if |segments| > 1 {
      FoldOfJoin(reg, segments[1..]);
      FoldConcat(reg, segments[0] + "/", Join(segments[1..]));
      FoldConcat(reg, segments[0], "/");
      assert Fold(reg, "/") == "/";
      assert FoldEach(reg, segments)[1..] == FoldEach(reg, segments[1..]);
    }
  }

  /** The same names, segment by segment, but for case. */
  ghost predicate SameFolded(reg: Registry, a: seq<string>, b: seq<string>) {
    |a| == |b| && forall k | 0 <= k < |a| :: Fold(reg, a[k]) == Fold(reg, b[k])
  }

  ghost predicate SlashFree(segments: seq<string>) {
    forall k | 0 <= k < |segments| :: '/' !in segments[k]
  }

  lemma FoldedPathsAgree(reg: Registry, a: seq<string>, b: seq<string>)
    requires FoldKeepsSlashes(reg) && |a| == |b| && SlashFree(a) && SlashFree(b)
    ensures Fold(reg, Join(a)) == Fold(reg, Join(b)) <==> SameFolded(reg, a, b)
  {
    var x, y := FoldEach(reg, a), FoldEach(reg, b);
    FoldOfJoin(reg, a);
    FoldOfJoin(reg, b);
    if SameFolded(reg, a, b) {
      assert x == y;
    }
    if a != [] && Join(x) == Join(y) {
      FoldedHaveNoSlash(reg, a);
      FoldedHaveNoSlash(reg, b);
      JoinInjective(x, y);
      assert forall k | 0 <= k < |a| :: x[k] == y[k];
    }
  }

  lemma FoldedHaveNoSlash(reg: Registry, segments: seq<string>)
    requires FoldKeepsSlashes(reg) && SlashFree(segments)
    ensures forall segment | segment in FoldEach(reg, segments) :: '/' !in segment
  {
  }

  lemma FoldSlash(reg: Registry, a: string, b: string)
    requires FoldKeepsSlashes(reg)
    ensures Fold(reg, a + "/" + b) == Fold(reg, a) + "/" + Fold(reg, b)
  {
    FoldConcat(reg, a + "/", b);
    FoldConcat(reg, a, "/");
    assert Fold(reg, "/") == "/";
  }

  // ---- which paths share a group --------------------------------------------------------------

  /** What two files of one layout must have in common to share a group, by their roots and the names below. */
  ghost predicate Alike(reg: Registry, layout: Layout, root: seq<string>, root': seq<string>, rest: seq<string>, rest': seq<string>)
    requires rest != [] && rest' != []
  {
    var x, y := rest[|rest| - 1], rest'[|rest'| - 1];
    match layout.groupBy
    case ByLayout => true
    case ByRoot => SameFolded(reg, root, root')
    case ByFirstDescendant => SameFolded(reg, root, root') && Fold(reg, rest[0]) == Fold(reg, rest'[0])
    case ByRootFile => SameFolded(reg, root, root') && Fold(reg, Stem(x)) == Fold(reg, Stem(y))
    case ByRootStem => RootStem(reg, x) == RootStem(reg, y)
    case ByN64Title => reg.dropControllerSlot(RootStem(reg, x)) == reg.dropControllerSlot(RootStem(reg, y))
    case ByDolphinState => Fold(reg, reg.dropStateSlot(x)) == Fold(reg, reg.dropStateSlot(y))
  }

  /** The segments of a path between its system and its own names. */
  function RootOf(layout: Layout, segments: seq<string>): seq<string>
    requires |segments| > RootDepth(layout) + 1
  {
    segments[1..RootDepth(layout) + 1]
  }

  function BelowRoot(layout: Layout, segments: seq<string>): (r: seq<string>)
    requires |segments| > RootDepth(layout) + 1
    ensures r != []
  {
    segments[RootDepth(layout) + 1..]
  }

  /** `group_for_path` gives this path this group, by way of this layout. */
  ghost predicate HasGroup(reg: Registry, layout: Layout, segments: seq<string>, id: string) {
    && |segments| >= 2 && (forall segment | segment in segments :: Clean(segment))
    && var g := GroupForPath(reg, Join(segments)); g.Some? && g.value.layoutId == layout.id && g.value.id == id
  }

  /** The group that this layout gives to a path, by the path's own segments. */
  lemma KeyOfPath(reg: Registry, layout: Layout, segments: seq<string>, id: string)
    requires ValidRegistry(reg) && layout in reg.layouts && HasGroup(reg, layout, segments, id)
    ensures |segments| > RootDepth(layout) + 1
    ensures id == layout.id + "/" + GroupKey(reg, layout, RootOf(layout, segments), BelowRoot(layout, segments))
  {
    var k := GroupIsOfFewestTokens(reg, segments);
    SameIdSameLayout(reg, reg.layouts[k], layout);
  }

  lemma SameIdSameLayout(reg: Registry, a: Layout, b: Layout)
    requires ValidRegistry(reg) && a in reg.layouts && b in reg.layouts && a.id == b.id
    ensures a == b
  {
  }

  ghost predicate AllClean(segments: seq<string>) {
    forall k | 0 <= k < |segments| :: Clean(segments[k])
  }

  lemma EmptyJoin(segments: seq<string>)
    requires AllClean(segments)
    ensures Join(segments) == "" <==> segments == []
  {
    if segments != [] { assert Clean(segments[0]); }
  }

  lemma KeysOfRoots(reg: Registry, layout: Layout, root: seq<string>, root': seq<string>, rest: seq<string>, rest': seq<string>)
    requires FoldKeepsSlashes(reg) && layout.groupBy == ByRoot && |root| == |root'| && rest != [] && rest' != []
    requires AllClean(root) && AllClean(root')
    ensures GroupKey(reg, layout, root, rest) == GroupKey(reg, layout, root', rest') <==> SameFolded(reg, root, root')
  {
    FoldedPathsAgree(reg, root, root');
    EmptyJoin(root);
    EmptyJoin(root');
  }

  lemma KeyOfDescendant(reg: Registry, layout: Layout, root: seq<string>, rest: seq<string>)
    requires FoldKeepsSlashes(reg) && layout.groupBy == ByFirstDescendant && rest != [] && AllClean(root)
    ensures GroupKey(reg, layout, root, rest) == Fold(reg, Join(root + [rest[0]]))
  {
    EmptyJoin(root);
    if root == [] {
      assert root + [rest[0]] == [rest[0]];
    } else {
      JoinConcat(root, [rest[0]]);
      FoldSlash(reg, Join(root), rest[0]);
    }
  }

  lemma KeysOfDescendants(reg: Registry, layout: Layout, root: seq<string>, root': seq<string>, rest: seq<string>, rest': seq<string>)
    requires FoldKeepsSlashes(reg) && layout.groupBy == ByFirstDescendant && |root| == |root'| && rest != [] && rest' != []
    requires AllClean(root) && AllClean(root') && Clean(rest[0]) && Clean(rest'[0])
    ensures GroupKey(reg, layout, root, rest) == GroupKey(reg, layout, root', rest') <==>
      SameFolded(reg, root, root') && Fold(reg, rest[0]) == Fold(reg, rest'[0])
  {
    KeyOfDescendant(reg, layout, root, rest);
    KeyOfDescendant(reg, layout, root', rest');
    FoldedPathsAgree(reg, root + [rest[0]], root' + [rest'[0]]);
    SameFoldedSnoc(reg, root, root', rest[0], rest'[0]);
  }

  lemma StemIsPrefix(filename: string)
    ensures Stem(filename) <= filename
  {
  }

  lemma KeysOfRootFiles(reg: Registry, layout: Layout, root: seq<string>, root': seq<string>, rest: seq<string>, rest': seq<string>)
    requires FoldKeepsSlashes(reg) && layout.groupBy == ByRootFile && |root| == |root'| && rest != [] && rest' != []
    requires AllClean(root) && AllClean(root') && Clean(rest[|rest| - 1]) && Clean(rest'[|rest'| - 1])
    ensures GroupKey(reg, layout, root, rest) == GroupKey(reg, layout, root', rest') <==>
      SameFolded(reg, root, root') && Fold(reg, Stem(rest[|rest| - 1])) == Fold(reg, Stem(rest'[|rest'| - 1]))
  {
    var x, y := Stem(rest[|rest| - 1]), Stem(rest'[|rest'| - 1]);
    StemIsPrefix(rest[|rest| - 1]);
    StemIsPrefix(rest'[|rest'| - 1]);
    assert '/' !in x && '/' !in y;
    FoldedPathsAgree(reg, root + [x], root' + [y]);
    SameFoldedSnoc(reg, root, root', x, y);
  }

  lemma SameFoldedSnoc(reg: Registry, a: seq<string>, b: seq<string>, x: string, y: string)
    requires |a| == |b|
    ensures SameFolded(reg, a + [x], b + [y]) <==> SameFolded(reg, a, b) && Fold(reg, x) == Fold(reg, y)
  {
    if SameFolded(reg, a + [x], b + [y]) {
      assert (a + [x])[|a|] == x && (b + [y])[|b|] == y;
      forall k | 0 <= k < |a| ensures Fold(reg, a[k]) == Fold(reg, b[k]) { assert (a + [x])[k] == a[k] && (b + [y])[k] == b[k]; }
    }
  }

  lemma KeysAgreeExactlyWhenAlike(reg: Registry, layout: Layout, root: seq<string>, root': seq<string>, rest: seq<string>, rest': seq<string>)
    requires FoldKeepsSlashes(reg) && |root| == |root'| && rest != [] && rest' != []
    requires AllClean(root) && AllClean(root') && AllClean(rest) && AllClean(rest')
    ensures GroupKey(reg, layout, root, rest) == GroupKey(reg, layout, root', rest') <==> Alike(reg, layout, root, root', rest, rest')
  {
    match layout.groupBy
    case ByRoot => KeysOfRoots(reg, layout, root, root', rest, rest');
    case ByFirstDescendant => KeysOfDescendants(reg, layout, root, root', rest, rest');
    case ByRootFile => KeysOfRootFiles(reg, layout, root, root', rest, rest');
    case _ =>
  }

  lemma PrefixInjective(p: string, a: string, b: string)
    ensures p + a == p + b <==> a == b
  {
    assert (p + a)[|p|..] == a && (p + b)[|p|..] == b;
  }

  /**
   * Two paths in one layout share a group exactly when they agree in what the layout groups by: nothing, the root, the
   * root and the name below it, the root and the file's stem, or the file name without its state, controller or slot
   * suffix; each but for case.
   */
  lemma GroupsAgreeExactlyWhenAlike(reg: Registry, layout: Layout, a: seq<string>, b: seq<string>, id: string, id': string)
    requires ValidRegistry(reg) && FoldKeepsSlashes(reg) && layout in reg.layouts
    requires HasGroup(reg, layout, a, id) && HasGroup(reg, layout, b, id')
    ensures |a| > RootDepth(layout) + 1 && |b| > RootDepth(layout) + 1
    ensures id == id' <==> Alike(reg, layout, RootOf(layout, a), RootOf(layout, b), BelowRoot(layout, a), BelowRoot(layout, b))
  {
    KeyOfPath(reg, layout, a, id);
    KeyOfPath(reg, layout, b, id');
    var root, root', rest, rest' := RootOf(layout, a), RootOf(layout, b), BelowRoot(layout, a), BelowRoot(layout, b);
    assert AllClean(a) && AllClean(b);
    assert AllClean(root) && AllClean(root') && AllClean(rest) && AllClean(rest');
    KeysAgreeExactlyWhenAlike(reg, layout, root, root', rest, rest');
    PrefixInjective(layout.id + "/", GroupKey(reg, layout, root, rest), GroupKey(reg, layout, root', rest'));
  }
}
