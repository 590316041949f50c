/** The save layout registry of `save_selection.py`: matching a path to a layout and to its group. */
module SaveSelection {
  import opened Options
  import opened PosixPaths
  import opened Ordering

  datatype GroupBy = ByLayout | ByRoot | ByFirstDescendant | ByRootStem | ByRootFile | ByN64Title | ByDolphinState

  datatype ContainerKind = NoContainer | FileContainer | DirectoryContainer

  datatype Layout = Layout(
    id: string,
    system: string,
    rootPattern: string,
    recursive: bool,
    eligible: seq<string>,
    exclusions: seq<string>,
    shared: bool,
    groupBy: GroupBy,
    requiresOptIn: bool,
    hasContainer: bool,
    containerKind: ContainerKind,
    markers: seq<string>)

  /**
   * `tokens` are the keys of `_TOKEN_VALIDATORS` and `accepts` applies the validator of one. `glob` is `_match`, `fold`
   * case folding, taken to work letter by letter, and the last two are the two suffix-stripping `re.sub` calls.
   */
  datatype Registry = Registry(
    layouts: seq<Layout>,
    tokens: set<string>,
    accepts: (string, string) -> bool,
    glob: (string, string) -> bool,
    fold: char -> char,
    dropControllerSlot: string -> string,
    dropStateSlot: string -> string)

  // ---- segments -------------------------------------------------------------------------

  /** A segment that stands for itself in a canonical path. */
  predicate Clean(segment: string) {
    segment != "" && segment != "." && segment != ".." && '/' !in segment && '\\' !in segment
  }

  /** `_segments` */
  function Segments(value: string): seq<string> {
    Parts(Slashes(value))
  }

  lemma SegmentsAreClean(value: string)
    ensures forall segment | segment in Segments(value) :: segment == ".." || Clean(segment)
  {
    PartsOfSlashes(value);
  }

  /** The pattern of a layout's roots, from the saves directory down. */
  function Pattern(layout: Layout): seq<string> {
    [layout.system] + Segments(layout.rootPattern)
  }

  /** `_segment_matches` */
  predicate SegmentMatches(reg: Registry, pattern: string, value: string) {
    if pattern in reg.tokens then reg.accepts(pattern, value) else pattern == value
  }

  predicate SegmentsMatch(reg: Registry, pattern: seq<string>, values: seq<string>) {
    |pattern| == |values| && forall k | 0 <= k < |pattern| :: SegmentMatches(reg, pattern[k], values[k])
  }

  /**
   * What the registry in the source satisfies: the constructor checks the identifiers, no system is a token, no
   * literal steps up, and every validator rejects whatever is not a plain name.
   */
  ghost predicate ValidRegistry(reg: Registry) {
    && (forall j, k | 0 <= j < k < |reg.layouts| :: reg.layouts[j].id != reg.layouts[k].id)
    && (forall layout | layout in reg.layouts :: ValidLayout(reg, layout))
    && (forall token, value | token in reg.tokens && reg.accepts(token, value) :: Clean(value))
  }

  ghost predicate ValidLayout(reg: Registry, layout: Layout) {
    && layout.system !in reg.tokens && Clean(layout.system)
    && ".." !in Segments(layout.rootPattern)
  }

  /** What matches the pattern of a registered layout is a canonical path. */
  lemma MatchedSegmentsAreClean(reg: Registry, layout: Layout, values: seq<string>)
    requires ValidRegistry(reg) && layout in reg.layouts && SegmentsMatch(reg, Pattern(layout), values)
    ensures values != [] && values[0] == layout.system
    ensures forall value | value in values :: Clean(value)
  {
    SegmentsAreClean(layout.rootPattern);
    assert ValidLayout(reg, layout);
    forall k | 0 <= k < |values| ensures Clean(values[k]) {
      assert SegmentMatches(reg, Pattern(layout)[k], values[k]);
      if k > 0 { assert Pattern(layout)[k] in Segments(layout.rootPattern); }
    }
    assert SegmentMatches(reg, Pattern(layout)[0], values[0]);
  }

  // ---- matching ---------------------------------------------------------------------------

  /** The segments of a path that is exactly the canonical spelling of a relative POSIX path. */
  function CanonicalSegments(path: string): Option<seq<string>> {
    var segments := Split(path);
    if '\\' in path || exists segment | segment in segments :: segment == "" || segment == "." || segment == ".."
    then None else Some(segments)
  }

  lemma CanonicalSegmentsOfJoin(segments: seq<string>)
    requires segments != [] && forall segment | segment in segments :: '/' !in segment
    ensures CanonicalSegments(Join(segments)) ==
            if forall segment | segment in segments :: Clean(segment) then Some(segments) else None
  {
    SplitJoin(segments);
    JoinCharacters(segments, '\\');
    if '\\' in Join(segments) {
      var k :| 0 <= k < |segments| && '\\' in segments[k];
      assert !Clean(segments[k]);
    }
  }

  datatype Match = Match(root: seq<string>, remainder: seq<string>)

  /** The tests of `_match_layout` on what lies below a root: depth, exclusions, eligible files. */
  predicate Admits(reg: Registry, layout: Layout, remainder: seq<string>) {
    && remainder != [] && (layout.recursive || |remainder| == 1)
    && (forall pattern | pattern in layout.exclusions :: !reg.glob(Join(remainder), pattern))
    && (exists pattern | pattern in layout.eligible :: reg.glob(Join(remainder), pattern))
  }

  /** `_match_layout` */
  function MatchLayout(reg: Registry, layout: Layout, path: string): Option<Match> {
    var roots := Segments(layout.rootPattern);
    match CanonicalSegments(path)
    case None => None
    case Some(parts) =>
      if |parts| <= |roots| || !SegmentsMatch(reg, roots, parts[..|roots|]) || !Admits(reg, layout, parts[|roots|..]) then None
      else Some(Match(parts[..|roots|], parts[|roots|..]))
  }

  // ---- grouping ---------------------------------------------------------------------------

  function Fold(reg: Registry, s: string): (r: string)
    ensures |r| == |s| && forall k | 0 <= k < |s| :: r[k] == reg.fold(s[k])
  {
    seq(|s|, k requires 0 <= k < |s| => reg.fold(s[k]))
  }

  predicate OccursAt(s: string, needle: string, k: nat) {
    k <= |s| && needle <= s[k..]
  }

  /** `str.find`: the first position of `needle` from `from` on. */
  function Find(s: string, needle: string, from: nat): (r: Option<nat>)
    requires from <= |s|
    ensures r.Some? ==> from <= r.value <= |s| && OccursAt(s, needle, r.value)
    ensures forall k: nat | from <= k && OccursAt(s, needle, k) :: r.Some? && r.value <= k
    decreases |s| - from
  {
    if OccursAt(s, needle, from) then Some(from)
    else if from == |s| then None
    else Find(s, needle, from + 1)
  }

  /** `str.rfind` of one character. */
  function FindLast(s: string, c: char): (r: Option<nat>)
    ensures r.Some? ==> r.value < |s| && s[r.value] == c
    ensures forall k | 0 <= k < |s| && s[k] == c :: r.Some? && k <= r.value
  {
    if s == "" then None
    else if s[|s| - 1] == c then Some(|s| - 1)
    else FindLast(s[..|s| - 1], c)
  }

  /** `PurePosixPath(filename).stem` for a plain file name. */
  function Stem(filename: string): string {
    var dot := FindLast(filename, '.');
    if dot.Some? && 0 < dot.value < |filename| - 1 then filename[..dot.value] else filename
  }

  const SAVESTAT := ".savestat"
  const STATE := ".state"

  /** `_root_stem` */
  function RootStem(reg: Registry, filename: string): string {
    var folded := Fold(reg, filename);
    var savestat := Find(folded, SAVESTAT, 0);
    var state := Find(folded, STATE, 0);
    if savestat.Some? && savestat.value > 0 then Fold(reg, filename[..savestat.value])
    else if state.Some? && state.value > 0 then Fold(reg, filename[..state.value])
    else Fold(reg, Stem(filename))
  }

  /** `_group_key` */
  function GroupKey(reg: Registry, layout: Layout, root: seq<string>, remainder: seq<string>): string
    requires remainder != []
  {
    var last := remainder[|remainder| - 1];
    match layout.groupBy
    case ByLayout => "dataset"
    case ByRoot => if Join(root) == "" then "root" else Fold(reg, Join(root))
    case ByFirstDescendant =>
      if Join(root) == "" then Fold(reg, remainder[0]) else Fold(reg, Join(root)) + "/" + Fold(reg, remainder[0])
    case ByRootStem => RootStem(reg, last)
    case ByRootFile => Fold(reg, Join(root + [Stem(last)]))
    case ByN64Title => reg.dropControllerSlot(RootStem(reg, last))
    case ByDolphinState => Fold(reg, reg.dropStateSlot(last))
  }

  datatype Group = Group(id: string, layoutId: string, system: string, shared: bool, containerId: string)

  /** The sort key of `group_for_path`: how many root segments are tokens. */
  function DynamicSegments(reg: Registry, layout: Layout): nat {
    |Filter(segment => segment in reg.tokens, Segments(layout.rootPattern))|
  }

  function ByDynamicSegments(reg: Registry): (Layout, Layout) -> bool {
    (a: Layout, b: Layout) => DynamicSegments(reg, a) <= DynamicSegments(reg, b)
  }

  function Matching(reg: Registry, system: string, relative: string): Layout -> bool {
    (layout: Layout) => layout.system == system && MatchLayout(reg, layout, relative).Some?
  }

  /** The first layout of a list that covers a path. */
  function FirstMatch(reg: Registry, layouts: seq<Layout>, system: string, relative: string): (r: Option<Layout>)
    ensures r.Some? ==> r.value.system == system && MatchLayout(reg, r.value, relative).Some?
  {
    if layouts == [] then None
    else if layouts[0].system == system && MatchLayout(reg, layouts[0], relative).Some? then Some(layouts[0])
    else FirstMatch(reg, layouts[1..], system, relative)
  }

  function Describe(reg: Registry, layout: Layout, path: string, m: Match): Group
    requires m.remainder != []
  {
    Group(layout.id + "/" + GroupKey(reg, layout, m.root, m.remainder), layout.id, layout.system, layout.shared,
          match layout.containerKind
          case NoContainer => ""
          case FileContainer => path
          case DirectoryContainer => Join([layout.system] + m.root))
  }

  /** `group_for_path` */
  function GroupForPath(reg: Registry, path: string): Option<Group> {
    match CanonicalSegments(path)
    case None => None
    case Some(segments) =>
      if |segments| < 2 then None
      else
        var relative := Join(segments[1..]);
        match FirstMatch(reg, Sort(ByDynamicSegments(reg), reg.layouts), segments[0], relative)
        case None => None
        case Some(layout) => Some(Describe(reg, layout, path, MatchLayout(reg, layout, relative).value))
  }

  lemma {:induction false} FirstMatchIsFilter(reg: Registry, layouts: seq<Layout>, system: string, relative: string)
    ensures var kept := Filter(Matching(reg, system, relative), layouts);
      FirstMatch(reg, layouts, system, relative) == if kept == [] then None else Some(kept[0])
  {
    if layouts != [] { FirstMatchIsFilter(reg, layouts[1..], system, relative); }
  }

  ghost predicate Covers(reg: Registry, layout: Layout, segments: seq<string>)
    requires segments != []
  {
    layout.system == segments[0] && MatchLayout(reg, layout, Join(segments[1..])).Some?
  }

  /** No layout that covers the path has fewer tokens, nor as many and an earlier place in the registry. */
  ghost predicate MostLiteral(reg: Registry, k: nat, segments: seq<string>)
    requires segments != []
  {
    && k < |reg.layouts| && Covers(reg, reg.layouts[k], segments)
    && forall j | 0 <= j < |reg.layouts| && Covers(reg, reg.layouts[j], segments) ::
         var dj, dk := DynamicSegments(reg, reg.layouts[j]), DynamicSegments(reg, reg.layouts[k]); dk < dj || (dk == dj && k <= j)
  }

  /** The group of a path is the one that this layout describes. */
  ghost predicate GroupedBy(reg: Registry, k: nat, segments: seq<string>)
    requires segments != []
  {
    && MostLiteral(reg, k, segments)
    && var m := MatchLayout(reg, reg.layouts[k], Join(segments[1..])).value;
       GroupForPath(reg, Join(segments)) == Some(Describe(reg, reg.layouts[k], Join(segments), m))
  }

  /** A path that some layout covers has the group given by the most literal such layout. */
  lemma GroupIsOfMostLiteralLayout(reg: Registry, segments: seq<string>, layout: Layout)
    requires |segments| >= 2 && forall segment | segment in segments :: Clean(segment)
    requires layout in reg.layouts && Covers(reg, layout, segments)
    ensures exists k: nat :: GroupedBy(reg, k, segments)
  {
    CanonicalSegmentsOfJoin(segments);
    var relative := Join(segments[1..]);
    var le, keep := ByDynamicSegments(reg), Matching(reg, segments[0], relative);
    FirstMatchIsFilter(reg, Sort(le, reg.layouts), segments[0], relative);
    assert keep(layout);
    var k := FirstOfSorted(le, keep, reg.layouts);
    assert MostLiteral(reg, k, segments) by {
      assert Covers(reg, reg.layouts[k], segments);
      forall j | 0 <= j < |reg.layouts| && Covers(reg, reg.layouts[j], segments)
        ensures var dj, dk := DynamicSegments(reg, reg.layouts[j]), DynamicSegments(reg, reg.layouts[k]); dk < dj || (dk == dj && k <= j)
      {
        assert keep(reg.layouts[j]);
      }
    }
    assert GroupedBy(reg, k, segments);
  }

  /** A path that no layout covers has no group. */
  lemma UncoveredHasNoGroup(reg: Registry, segments: seq<string>)
    requires |segments| >= 2 && forall segment | segment in segments :: Clean(segment)
    requires forall layout | layout in reg.layouts :: !Covers(reg, layout, segments)
    ensures GroupForPath(reg, Join(segments)) == None
  {
    CanonicalSegmentsOfJoin(segments);
    var relative := Join(segments[1..]);
    var le, keep := ByDynamicSegments(reg), Matching(reg, segments[0], relative);
    FirstMatchIsFilter(reg, Sort(le, reg.layouts), segments[0], relative);
    SortProperties(le, reg.layouts);
    forall layout | layout in Sort(le, reg.layouts) ensures !keep(layout) {
      assert layout in multiset(reg.layouts);
      assert !Covers(reg, layout, segments);
    }
    FilterDropsAll(keep, Sort(le, reg.layouts));
  }

  /** Every group comes from a layout of the registry. */
  lemma GroupHasLayout(reg: Registry, segments: seq<string>)
    requires |segments| >= 2 && forall segment | segment in segments :: Clean(segment)
    requires GroupForPath(reg, Join(segments)).Some?
    ensures exists k: nat :: GroupedBy(reg, k, segments)
  {
    if layout :| layout in reg.layouts && Covers(reg, layout, segments) {
      GroupIsOfMostLiteralLayout(reg, segments, layout);
    } else {
      UncoveredHasNoGroup(reg, segments);
    }
  }
}
