/** `staging_bytes`: what it counts, and why the moves of a crash recovery do not change the count. */
module RecoveryAccounting {
  import opened FiniteSums

  /** Paths below the cache root, as segments; `<=` is "is a prefix of". */
  type Path = seq<string>

  /** The regular files below the cache root with their sizes. */
  type Files = map<Path, nat>

  const PARTIAL: Path := [".partial"]

  const BACKUP_SUFFIX := ".romcloud-replaced"

  /** Two prefixes of one path are ordered. */
  lemma PrefixesAreOrdered(a: Path, b: Path, p: Path)
    requires a <= p && b <= p
    ensures a <= b || b <= a
  {
    assert a == p[..|a|] && b == p[..|b|];
    if |a| <= |b| { assert a == b[..|a|]; } else { assert b == a[..|b|]; }
  }

  function Size(n: nat): int { n }

  function Below(files: Files, root: Path): Files {
    map p | p in files && root <= p :: files[p]
  }

  /** The bytes of all files at or below a path. */
  ghost function SizeUnder(files: Files, root: Path): int {
    Total(Below(files, root), Size)
  }

  /** A file is not a directory: no file lies below another. */
  ghost predicate TreeShaped(files: Files) {
    forall p, q | p in files && q in files && p <= q :: p == q
  }

  /** `_physical_size`: a file's own size, or everything below a directory, or nothing. */
  ghost function PhysicalSize(files: Files, path: Path): int {
    if path in files then files[path] else SizeUnder(files, path)
  }

  lemma PhysicalSizeIsSizeUnder(files: Files, path: Path)
    requires TreeShaped(files)
    ensures PhysicalSize(files, path) == SizeUnder(files, path)
  {
    if path in files {
      var b := Below(files, path);
      TotalRemove(b, path, Size);
      assert b - {path} == map[];
    }
  }

  /** `final.with_name(final.name + ".romcloud-replaced")` */
  function Backup(final: Path): Path
    requires final != []
  {
    final[..|final| - 1] + [final[|final| - 1] + BACKUP_SUFFIX]
  }

  /** A durable recovery manifest: the resolved final path of every row. */
  type Manifest = seq<Path>

  predicate Resolved(rows: Manifest) {
    forall i | 0 <= i < |rows| :: |rows[i]| >= 2
  }

  ghost function FinalBytes(files: Files, rows: Manifest): int {
    if rows == [] then 0 else FinalBytes(files, rows[..|rows| - 1]) + PhysicalSize(files, rows[|rows| - 1])
  }

  ghost function BackupBytes(files: Files, rows: Manifest): int
    requires Resolved(rows)
  {
    if rows == [] then 0 else BackupBytes(files, rows[..|rows| - 1]) + PhysicalSize(files, Backup(rows[|rows| - 1]))
  }

  /** `staging_bytes`: partials, promoted members awaiting their transaction, and replacement backups. */
  ghost function StagingBytes(files: Files, rows: Manifest): int
    requires Resolved(rows)
  {
    SizeUnder(files, PARTIAL) + FinalBytes(files, rows) + BackupBytes(files, rows)
  }

  // ---- the summing loops ------------------------------------------------------------------

  method TreeSize(files: Files, root: Path) returns (total: int)
    ensures total == SizeUnder(files, root)
  {
    total := 0;
    var todo := Below(files, root);
    while todo != map[]
      invariant total + Total(todo, Size) == SizeUnder(files, root)
      decreases |todo|
    {
      var p :| p in todo;
      TotalRemove(todo, p, Size);
      total := total + todo[p];
      todo := todo - {p};
    }
  }

  method MeasurePath(files: Files, path: Path) returns (total: int)
    ensures total == PhysicalSize(files, path)
  {
    if path in files { return files[path]; }
    total := TreeSize(files, path);
  }

  method MeasureStaging(files: Files, rows: Manifest) returns (total: int)
    requires Resolved(rows)
    ensures total == StagingBytes(files, rows)
  {
    total := TreeSize(files, PARTIAL);
    for i := 0 to |rows|
      invariant total == SizeUnder(files, PARTIAL) + FinalBytes(files, rows[..i])
    {
      var n := MeasurePath(files, rows[i]);
      assert rows[..i + 1][..i] == rows[..i];
      total := total + n;
    }
    assert rows[..|rows|] == rows;
    for i := 0 to |rows|
      invariant total == SizeUnder(files, PARTIAL) + FinalBytes(files, rows) + BackupBytes(files, rows[..i])
    {
      var n := MeasurePath(files, Backup(rows[i]));
      assert rows[..i + 1][..i] == rows[..i];
      total := total + n;
    }
  }

  // ---- weighing files -------------------------------------------------------------------------

  function Value(n: int): int { n }

  ghost function Weights(files: Files, w: Path -> int): map<Path, int> {
    map p | p in files :: w(p) * files[p]
  }

  /** The bytes of some files, each counted as often as its path weighs. */
  ghost function Weighed(files: Files, w: Path -> int): int {
    Total(Weights(files, w), Value)
  }

  lemma WeighedRemove(files: Files, w: Path -> int, p: Path)
    requires p in files
    ensures Weighed(files, w) == w(p) * files[p] + Weighed(files - {p}, w)
  {
    TotalRemove(Weights(files, w), p, Value);
    assert Weights(files, w) - {p} == Weights(files - {p}, w);
  }

  lemma WeighedOne(p: Path, n: nat, w: Path -> int)
    ensures Weighed(map[p := n], w) == w(p) * n
  {
    var one: Files := map[p := n];
    WeighedRemove(one, w, p);
    assert one - {p} == map[];
  }

  lemma Distribute(a: int, b: int, n: int)
    ensures (a + b) * n == a * n + b * n
  {
  }

  lemma {:induction false} WeighedSum(files: Files, a: Path -> int, b: Path -> int, c: Path -> int)
    requires forall p | p in files :: c(p) == a(p) + b(p)
    ensures Weighed(files, c) == Weighed(files, a) + Weighed(files, b)
    decreases |files|
  {
    if files != map[] {
      var p :| p in files;
      WeighedSum(files - {p}, a, b, c);
      WeighedRemove(files, a, p);
      WeighedRemove(files, b, p);
      WeighedRemove(files, c, p);
      Distribute(a(p), b(p), files[p]);
    }
  }

  /** Files that all weigh the same. */
  lemma {:induction false} WeighedEvenly(files: Files, w: Path -> int, m: int)
    requires forall p | p in files :: w(p) == m
    ensures Weighed(files, w) == m * Total(files, Size)
    decreases |files|
  {
    if files != map[] {
      var p :| p in files;
      WeighedEvenly(files - {p}, w, m);
      WeighedRemove(files, w, p);
      TotalRemove(files, p, Size);
      DistributeLeft(m, files[p], Total(files - {p}, Size));
    }
  }

  lemma DistributeLeft(m: int, a: int, b: int)
    ensures m * (a + b) == m * a + m * b
  {
  }

  /** Only the files below a place weigh anything. */
  lemma {:induction false} WeighedBelow(files: Files, root: Path, w: Path -> int)
    requires forall p | p in files && !(root <= p) :: w(p) == 0
    ensures Weighed(files, w) == Weighed(Below(files, root), w)
    decreases |files|
  {
    if files != map[] {
      var p :| p in files;
      WeighedBelow(files - {p}, root, w);
      WeighedRemove(files, w, p);
      BelowWithout(files, root, p);
      if root <= p { WeighedRemove(Below(files, root), w, p); }
    }
  }

  lemma BelowWithout(files: Files, root: Path, p: Path)
    requires p in files
    ensures Below(files - {p}, root) == Below(files, root) - {p}
    ensures !(root <= p) ==> Below(files - {p}, root) == Below(files, root)
  {
  }

  // ---- the count as a weight ----------------------------------------------------------------

  function Gain(holds: bool): int {
    if holds then 1 else 0
  }

  /** How many of some places hold a path. */
  function Cover(places: seq<Path>, p: Path): int {
    if places == [] then 0
    else Cover(places[..|places| - 1], p) + Gain(places[|places| - 1] <= p)
  }

  /** The places that hold a path, by their positions. */
  function Holders(places: seq<Path>, p: Path): set<nat> {
    set i: nat | i < |places| && places[i] <= p
  }

  lemma {:induction false} CoverCountsHolders(places: seq<Path>, p: Path)
    ensures Cover(places, p) == |Holders(places, p)|
  {
    if places != [] {
      var n := |places| - 1;
      CoverCountsHolders(places[..n], p);
      assert Holders(places, p) == Holders(places[..n], p) + if places[n] <= p then {n} else {};
    }
  }

  function CoverOf(places: seq<Path>): Path -> int {
    p => Cover(places, p)
  }

  function Holds(root: Path): Path -> int {
    p => Gain(root <= p)
  }

  lemma SizeUnderIsWeighed(files: Files, root: Path)
    ensures SizeUnder(files, root) == Weighed(files, Holds(root))
  {
    WeighedBelow(files, root, Holds(root));
    WeighedEvenly(Below(files, root), Holds(root), 1);
  }

  function Backups(rows: Manifest): (r: seq<Path>)
    requires Resolved(rows)
    ensures |r| == |rows| && forall i | 0 <= i < |rows| :: r[i] == Backup(rows[i])
  {
    seq(|rows|, i requires 0 <= i < |rows| => Backup(rows[i]))
  }

  /** Every place the count looks at: the partials, the final paths, the backup paths. */
  function Regions(rows: Manifest): (r: seq<Path>)
    requires Resolved(rows)
  {
    [PARTIAL] + rows + Backups(rows)
  }

  ghost function RegionBytes(files: Files, regions: seq<Path>): int {
    if regions == [] then 0
    else RegionBytes(files, regions[..|regions| - 1]) + SizeUnder(files, regions[|regions| - 1])
  }

  lemma {:induction false} RegionBytesConcat(files: Files, a: seq<Path>, b: seq<Path>)
    ensures RegionBytes(files, a + b) == RegionBytes(files, a) + RegionBytes(files, b)
  {
    if b == [] {
      assert a + b == a;
    } else {
      assert (a + b)[..|a + b| - 1] == a + b[..|b| - 1];
      RegionBytesConcat(files, a, b[..|b| - 1]);
    }
  }

  lemma {:induction false} FinalsAreRegions(files: Files, rows: Manifest)
    requires Resolved(rows) && TreeShaped(files)
    ensures FinalBytes(files, rows) == RegionBytes(files, rows)
    ensures BackupBytes(files, rows) == RegionBytes(files, Backups(rows))
  {
    if rows != [] {
      var n := |rows| - 1;
      FinalsAreRegions(files, rows[..n]);
      PhysicalSizeIsSizeUnder(files, rows[n]);
      PhysicalSizeIsSizeUnder(files, Backup(rows[n]));
      assert Backups(rows)[..n] == Backups(rows[..n]);
    }
  }

  lemma StagingIsRegionBytes(files: Files, rows: Manifest)
    requires Resolved(rows) && TreeShaped(files)
    ensures StagingBytes(files, rows) == RegionBytes(files, Regions(rows))
  {
    FinalsAreRegions(files, rows);
    RegionBytesConcat(files, [PARTIAL] + rows, Backups(rows));
    RegionBytesConcat(files, [PARTIAL], rows);
    assert [PARTIAL][..0] == [];
  }

  lemma {:induction false} RegionBytesAreWeighed(files: Files, regions: seq<Path>)
    ensures RegionBytes(files, regions) == Weighed(files, CoverOf(regions))
  {
    if regions == [] {
      WeighedEvenly(files, CoverOf(regions), 0);
    } else {
      var init, last := regions[..|regions| - 1], regions[|regions| - 1];
      RegionBytesAreWeighed(files, init);
      SizeUnderIsWeighed(files, last);
      WeighedSum(files, CoverOf(init), Holds(last), CoverOf(regions));
    }
  }

  lemma {:induction false} CoverOfConcat(a: seq<Path>, b: seq<Path>, p: Path)
    ensures Cover(a + b, p) == Cover(a, p) + Cover(b, p)
  {
    if b == [] {
      assert a + b == a;
    } else {
      assert (a + b)[..|a + b| - 1] == a + b[..|b| - 1];
      CoverOfConcat(a, b[..|b| - 1], p);
    }
  }

  /** Which places count: the staging tree, and for every row the final path and the same path with the backup's suffix. */
  lemma CountedPlaces(rows: Manifest, p: Path)
    requires Resolved(rows)
    ensures Cover(Regions(rows), p) ==
      (if [".partial"] <= p then 1 else 0)
      + |set i: nat | i < |rows| && rows[i] <= p|
      + |set i: nat | i < |rows| && rows[i][..|rows[i]| - 1] + [rows[i][|rows[i]| - 1] + ".romcloud-replaced"] <= p|
  {
    CoverOfConcat([PARTIAL] + rows, Backups(rows), p);
    CoverOfConcat([PARTIAL], rows, p);
    assert [PARTIAL][..0] == [];
    CoverCountsHolders(rows, p);
    CoverCountsHolders(Backups(rows), p);
    assert Holders(rows, p) == set i: nat | i < |rows| && rows[i] <= p;
    assert Holders(Backups(rows), p) ==
      set i: nat | i < |rows| && rows[i][..|rows[i]| - 1] + [rows[i][|rows[i]| - 1] + ".romcloud-replaced"] <= p;
  }

  /** The count is a double counting: every file's bytes, once for each counted place that holds it. */
  lemma StagingCountsEachCover(files: Files, rows: Manifest)
    requires Resolved(rows) && TreeShaped(files)
    ensures StagingBytes(files, rows) == Weighed(files, CoverOf(Regions(rows)))
  {
    StagingIsRegionBytes(files, rows);
    RegionBytesAreWeighed(files, Regions(rows));
  }

  // ---- moving a file or a directory ---------------------------------------------------------

  /** Neither place is at or below the other. */
  predicate Separate(a: Path, b: Path) {
    !(a <= b) && !(b <= a)
  }

  /** Nothing is at, below or above the destination as a file, and the two places are apart. */
  ghost predicate Movable(files: Files, src: Path, dst: Path) {
    Separate(src, dst) && forall p | p in files :: Separate(dst, p)
  }

  /** Where a path goes when `src` becomes `dst`. */
  function Target(p: Path, src: Path, dst: Path): Path {
    if src <= p then dst + p[|src|..] else p
  }

  /** Where a path came from. */
  function Source(q: Path, src: Path, dst: Path): Path {
    if dst <= q then src + q[|dst|..] else q
  }

  lemma SourceOfTarget(files: Files, src: Path, dst: Path, p: Path)
    requires Movable(files, src, dst) && p in files
    ensures Source(Target(p, src, dst), src, dst) == p
  {
    if src <= p {
      assert Target(p, src, dst)[|dst|..] == p[|src|..];
      assert p == src + p[|src|..];
    }
  }

  ghost function Targets(files: Files, src: Path, dst: Path): set<Path> {
    set p | p in files :: Target(p, src, dst)
  }

  /** `os.replace(src, dst)` onto an absent destination. */
  ghost function Move(files: Files, src: Path, dst: Path): Files
    requires Movable(files, src, dst)
  {
    assert forall q | q in Targets(files, src, dst) :: Source(q, src, dst) in files by {
      forall p | p in files ensures Source(Target(p, src, dst), src, dst) in files { SourceOfTarget(files, src, dst, p); }
    }
    map q | q in Targets(files, src, dst) :: files[Source(q, src, dst)]
  }

  /** Where a moved file comes from. */
  lemma MovedFrom(files: Files, src: Path, dst: Path, x: Path) returns (p: Path)
    requires Movable(files, src, dst) && x in Move(files, src, dst)
    ensures p in files && Target(p, src, dst) == x && Move(files, src, dst)[x] == files[p]
  {
    p :| p in files && Target(p, src, dst) == x;
    SourceOfTarget(files, src, dst, p);
  }

  lemma MovedTo(files: Files, src: Path, dst: Path, p: Path)
    requires Movable(files, src, dst) && p in files
    ensures Target(p, src, dst) in Move(files, src, dst) && Move(files, src, dst)[Target(p, src, dst)] == files[p]
  {
    SourceOfTarget(files, src, dst, p);
  }

  lemma MoveWithout(files: Files, src: Path, dst: Path, p: Path)
    requires Movable(files, src, dst) && p in files
    ensures Movable(files - {p}, src, dst)
    ensures Move(files - {p}, src, dst) == Move(files, src, dst) - {Target(p, src, dst)}
  {
    var rest, t := files - {p}, Target(p, src, dst);
    var fewer, all := Move(rest, src, dst), Move(files, src, dst);
    forall x | x in fewer ensures x != t && x in all && all[x] == fewer[x] {
      var q := MovedFrom(rest, src, dst, x);
      MovedTo(files, src, dst, q);
      SourceOfTarget(files, src, dst, p);
      SourceOfTarget(files, src, dst, q);
    }
    forall x | x in all && x != t ensures x in fewer {
      var q := MovedFrom(files, src, dst, x);
      MovedTo(rest, src, dst, q);
    }
  }

  lemma TargetIsMonotone(files: Files, src: Path, dst: Path, p: Path, q: Path)
    requires Movable(files, src, dst) && p in files && q in files
    requires Target(p, src, dst) <= Target(q, src, dst)
    ensures p <= q
  {
    if src <= p && src <= q {
      var a, b := p[|src|..], q[|src|..];
      assert (dst + b)[|dst|..] == b && (dst + a)[|dst|..] == a;
      assert a <= b by { assert (dst + b)[..|dst + a|] == dst + a; assert b[..|a|] == a; }
      assert p == src + a && q == src + b;
    } else if !(src <= p) && src <= q {
      PrefixesAreOrdered(p, dst, Target(q, src, dst));
    }
  }

  lemma MoveKeepsTreeShape(files: Files, src: Path, dst: Path)
    requires TreeShaped(files) && Movable(files, src, dst)
    ensures TreeShaped(Move(files, src, dst))
  {
    var after := Move(files, src, dst);
    forall x, y | x in after && y in after && x <= y ensures x == y {
      var p := MovedFrom(files, src, dst, x);
      var q := MovedFrom(files, src, dst, y);
      TargetIsMonotone(files, src, dst, p, q);
    }
  }

  function AfterMove(w: Path -> int, src: Path, dst: Path): Path -> int {
    p => w(Target(p, src, dst))
  }

  lemma {:induction false} WeighedMove(files: Files, src: Path, dst: Path, w: Path -> int)
    requires Movable(files, src, dst)
    ensures Weighed(Move(files, src, dst), w) == Weighed(files, AfterMove(w, src, dst))
    decreases |files|
  {
    if files == map[] {
      assert Move(files, src, dst) == map[];
    } else {
      var p :| p in files;
      MoveOne(files, src, dst, w, p);
      WeighedMove(files - {p}, src, dst, w);
      WeighedRemove(files, AfterMove(w, src, dst), p);
    }
  }

  lemma MoveOne(files: Files, src: Path, dst: Path, w: Path -> int, p: Path)
    requires Movable(files, src, dst) && p in files
    ensures Movable(files - {p}, src, dst)
    ensures Weighed(Move(files, src, dst), w) == w(Target(p, src, dst)) * files[p] + Weighed(Move(files - {p}, src, dst), w)
  {
    MoveWithout(files, src, dst, p);
    MovedTo(files, src, dst, p);
    WeighedRemove(Move(files, src, dst), w, Target(p, src, dst));
  }

  /** How many more of some places hold a path after a move than before. */
  function CoverChange(places: seq<Path>, src: Path, dst: Path): Path -> int {
    p => Cover(places, Target(p, src, dst)) - Cover(places, p)
  }

  /** Exactly what any move changes: the bytes of each moved file, once for each counted place that holds it now and did not. */
  lemma StagingAfterMove(files: Files, rows: Manifest, src: Path, dst: Path)
    requires Resolved(rows) && TreeShaped(files) && Movable(files, src, dst)
    ensures StagingBytes(Move(files, src, dst), rows) ==
      StagingBytes(files, rows) + Weighed(Below(files, src), CoverChange(Regions(rows), src, dst))
  {
    var regions := Regions(rows);
    MoveKeepsTreeShape(files, src, dst);
    StagingCountsEachCover(files, rows);
    StagingCountsEachCover(Move(files, src, dst), rows);
    WeighedMove(files, src, dst, CoverOf(regions));
    WeighedSum(files, CoverOf(regions), CoverChange(regions, src, dst), AfterMove(CoverOf(regions), src, dst));
    WeighedBelow(files, src, CoverChange(regions, src, dst));
  }

  /** What the cover of a path below the source gains by the move. */
  function CoverGain(places: seq<Path>, src: Path, dst: Path, rest: Path): int {
    Cover(places, dst + rest) - Cover(places, src + rest)
  }

  lemma ChangeBelow(places: seq<Path>, src: Path, dst: Path, rest: Path)
    ensures CoverChange(places, src, dst)(src + rest) == CoverGain(places, src, dst, rest)
  {
    assert (src + rest)[|src|..] == rest;
  }

  /** The case in which every moved file gains and loses as many places. */
  lemma StagingAfterEvenMove(files: Files, rows: Manifest, src: Path, dst: Path, m: int)
    requires Resolved(rows) && TreeShaped(files) && Movable(files, src, dst)
    requires forall rest: Path :: CoverGain(Regions(rows), src, dst, rest) == m
    ensures StagingBytes(Move(files, src, dst), rows) == StagingBytes(files, rows) + m * SizeUnder(files, src)
  {
    StagingAfterMove(files, rows, src, dst);
    EvenChange(Below(files, src), Regions(rows), src, dst, m);
  }

  lemma EvenChange(tree: Files, places: seq<Path>, src: Path, dst: Path, m: int)
    requires forall p | p in tree :: src <= p
    requires forall rest: Path :: CoverGain(places, src, dst, rest) == m
    ensures Weighed(tree, CoverChange(places, src, dst)) == m * Total(tree, Size)
  {
    forall p | p in tree ensures CoverChange(places, src, dst)(p) == m {
      assert p == src + p[|src|..];
      ChangeBelow(places, src, dst, p[|src|..]);
    }
    WeighedEvenly(tree, CoverChange(places, src, dst), m);
  }

  function OneFile(p: Path, n: nat): Files {
    map[p := n]
  }

  lemma OneFileIsMovable(src: Path, dst: Path, rest: Path, n: nat)
    requires Separate(src, dst)
    ensures TreeShaped(OneFile(src + rest, n)) && Movable(OneFile(src + rest, n), src, dst)
    ensures Below(OneFile(src + rest, n), src) == OneFile(src + rest, n)
  {
    if dst <= src + rest { PrefixesAreOrdered(src, dst, src + rest); }
  }

  /** One file of any size shows what its path gains. */
  lemma OneFileShows(rows: Manifest, src: Path, dst: Path, rest: Path, n: nat)
    requires Resolved(rows) && Separate(src, dst)
    ensures var one := OneFile(src + rest, n);
      && TreeShaped(one) && Movable(one, src, dst)
      && StagingBytes(Move(one, src, dst), rows) == StagingBytes(one, rows) + CoverGain(Regions(rows), src, dst, rest) * n
  {
    OneFileIsMovable(src, dst, rest, n);
    StagingAfterMove(OneFile(src + rest, n), rows, src, dst);
    WeighedOne(src + rest, n, CoverChange(Regions(rows), src, dst));
    ChangeBelow(Regions(rows), src, dst, rest);
  }

  /** Moves between two places leave the count as it was for every tree there may be. */
  ghost predicate AlwaysConserved(rows: Manifest, src: Path, dst: Path)
    requires Resolved(rows)
  {
    forall files: Files | TreeShaped(files) && Movable(files, src, dst) ::
      StagingBytes(Move(files, src, dst), rows) == StagingBytes(files, rows)
  }

  /**
   * Moves between two places are invisible to the count, whatever is moved, if and only if at every path below them as
   * many counted places hold it after as before.
   */
  lemma ConservedExactlyWhenCoverIsEqual(rows: Manifest, src: Path, dst: Path)
    requires Resolved(rows) && Separate(src, dst)
    ensures AlwaysConserved(rows, src, dst) <==> forall rest: Path :: CoverGain(Regions(rows), src, dst, rest) == 0
  {
    if AlwaysConserved(rows, src, dst) {
      forall rest: Path ensures CoverGain(Regions(rows), src, dst, rest) == 0 {
        OneFileShows(rows, src, dst, rest, 1);
      }
    }
    if forall rest: Path :: CoverGain(Regions(rows), src, dst, rest) == 0 {
      forall files: Files | TreeShaped(files) && Movable(files, src, dst)
        ensures StagingBytes(Move(files, src, dst), rows) == StagingBytes(files, rows)
      {
        StagingAfterEvenMove(files, rows, src, dst, 0);
      }
    }
  }
}
