/** The two moves of a crash recovery, for manifests with distinct final paths none of which lies inside another. */
module RecoveryMoves {
  import opened RecoveryAccounting

  // ---- manifests with distinct final paths, none inside another ----------------------------------

  ghost predicate Apart(rows: Manifest) {
    forall i, j | 0 <= i < |rows| && 0 <= j < |rows| && i != j :: !(rows[i] <= rows[j])
  }

  function Parent(p: Path): Path
    requires p != []
  {
    p[..|p| - 1]
  }

  lemma BackupFacts(final: Path)
    requires final != []
    ensures |Backup(final)| == |final| && Parent(Backup(final)) == Parent(final) && Separate(final, Backup(final))
  {
    assert Backup(final)[|final| - 1] != final[|final| - 1] by {
      assert |Backup(final)[|final| - 1]| == |final[|final| - 1]| + |BACKUP_SUFFIX|;
    }
  }

  lemma BackupIsInjective(a: Path, b: Path)
    requires a != [] && b != [] && Backup(a) == Backup(b)
    ensures a == b
  {
    var n := |a| - 1;
    assert |a| == |b| && a[..n] == Backup(a)[..n] == Backup(b)[..n] == b[..n];
    assert a[n] + BACKUP_SUFFIX == Backup(a)[n] == Backup(b)[n] == b[n] + BACKUP_SUFFIX;
    assert a[n] == (a[n] + BACKUP_SUFFIX)[..|a[n]|] == b[n];
    assert a == a[..n] + [a[n]] && b == b[..n] + [b[n]];
  }

  /** How often one row's final path and its backup hold a path. */
  function PairCover(row: Path, p: Path): int
    requires row != []
  {
    Gain(row <= p) + Gain(Backup(row) <= p)
  }

  function PairsCover(rows: Manifest, p: Path): int
    requires Resolved(rows)
  {
    if rows == [] then 0 else PairsCover(rows[..|rows| - 1], p) + PairCover(rows[|rows| - 1], p)
  }

  lemma {:induction false} CoverOfPairs(rows: Manifest, p: Path)
    requires Resolved(rows)
    ensures Cover(rows, p) + Cover(Backups(rows), p) == PairsCover(rows, p)
  {
    if rows != [] {
      var n := |rows| - 1;
      CoverOfPairs(rows[..n], p);
      assert Backups(rows)[..n] == Backups(rows[..n]);
    }
  }

  lemma CoverByRows(rows: Manifest, p: Path)
    requires Resolved(rows)
    ensures Cover(Regions(rows), p) == Gain(PARTIAL <= p) + PairsCover(rows, p)
  {
    CoverOfConcat([PARTIAL] + rows, Backups(rows), p);
    CoverOfConcat([PARTIAL], rows, p);
    assert [PARTIAL][..0] == [];
    CoverOfPairs(rows, p);
  }

  /** Two sums over the rows compare as their summands do. */
  lemma {:induction false} PairsCompare(rows: Manifest, src: Path, dst: Path, rest: Path)
    requires Resolved(rows)
    requires forall i | 0 <= i < |rows| :: PairGain(rows[i], src, dst, []) <= PairGain(rows[i], src, dst, rest)
    ensures PairsGain(rows, src, dst, []) <= PairsGain(rows, src, dst, rest)
    ensures (exists i :: 0 <= i < |rows| && PairGain(rows[i], src, dst, []) < PairGain(rows[i], src, dst, rest)) ==>
              PairsGain(rows, src, dst, []) < PairsGain(rows, src, dst, rest)
  {
    if rows != [] {
      PairsCompare(rows[..|rows| - 1], src, dst, rest);
      if i :| 0 <= i < |rows| && PairGain(rows[i], src, dst, []) < PairGain(rows[i], src, dst, rest) {
        if i < |rows| - 1 { assert rows[..|rows| - 1][i] == rows[i]; }
      }
    }
  }

  /** What one row contributes to the gain of a path. */
  function PairGain(row: Path, src: Path, dst: Path, rest: Path): int
    requires row != []
  {
    PairCover(row, dst + rest) - PairCover(row, src + rest)
  }

  function PairsGain(rows: Manifest, src: Path, dst: Path, rest: Path): int
    requires Resolved(rows)
  {
    if rows == [] then 0 else PairsGain(rows[..|rows| - 1], src, dst, rest) + PairGain(rows[|rows| - 1], src, dst, rest)
  }

  lemma {:induction false} PairsGainIsDifference(rows: Manifest, src: Path, dst: Path, rest: Path)
    requires Resolved(rows)
    ensures PairsGain(rows, src, dst, rest) == PairsCover(rows, dst + rest) - PairsCover(rows, src + rest)
  {
    if rows != [] { PairsGainIsDifference(rows[..|rows| - 1], src, dst, rest); }
  }

  lemma GainByRows(rows: Manifest, src: Path, dst: Path, rest: Path)
    requires Resolved(rows)
    ensures CoverGain(Regions(rows), src, dst, rest) ==
      Gain(PARTIAL <= dst + rest) - Gain(PARTIAL <= src + rest) + PairsGain(rows, src, dst, rest)
  {
    CoverByRows(rows, src + rest);
    CoverByRows(rows, dst + rest);
    PairsGainIsDifference(rows, src, dst, rest);
  }

  function Count(places: seq<Path>, p: Path): int {
    if places == [] then 0 else Count(places[..|places| - 1], p) + Gain(places[|places| - 1] == p)
  }

  lemma {:induction false} CountOfDistinct(places: seq<Path>, p: Path)
    requires forall i, j | 0 <= i < j < |places| :: places[i] != places[j]
    ensures Count(places, p) == Gain(p in places)
  {
    if places != [] {
      var n := |places| - 1;
      CountOfDistinct(places[..n], p);
      assert places == places[..n] + [places[n]];
    }
  }

  lemma FinalsAndBackupsDiffer(rows: Manifest)
    requires Resolved(rows) && Apart(rows)
    ensures forall i, j | 0 <= i < j < |rows| :: rows[i] != rows[j]
    ensures forall i, j | 0 <= i < j < |rows| :: Backups(rows)[i] != Backups(rows)[j]
  {
    forall i, j | 0 <= i < j < |rows| ensures rows[i] != rows[j] && Backup(rows[i]) != Backup(rows[j]) {
      assert !(rows[i] <= rows[j]);
      if Backup(rows[i]) == Backup(rows[j]) { BackupIsInjective(rows[i], rows[j]); }
    }
  }

  // ---- setting an old final path aside -----------------------------------------------------------

  lemma ProperPrefix(a: Path, p: Path)
    requires p != []
    ensures a < p <==> a <= Parent(p)
  {
    assert p == Parent(p) + [p[|p| - 1]];
    if a < p { assert a == p[..|a|] == Parent(p)[..|a|]; }
  }

  /** Paths of one directory are below the same places. */
  lemma SiblingsAreBelowTheSame(a: Path, p: Path, q: Path)
    requires p != [] && q != [] && Parent(p) == Parent(q)
    ensures a < p <==> a < q
  {
    ProperPrefix(a, p);
    ProperPrefix(a, q);
  }

  lemma HeldBelow(a: Path, p: Path, rest: Path)
    ensures a <= p + rest <==> a < p || a == p || (p < a && a <= p + rest)
  {
    if a <= p + rest { PrefixesAreOrdered(a, p, p + rest); }
    if a <= p { assert (p + rest)[..|a|] == p[..|a|]; }
  }

  /** What a row contributes when `final` is set aside: it matters only if it stands at or below the backup, or if its backup is the final path. */
  lemma RowGain(row: Path, final: Path, rest: Path)
    requires row != [] && final != [] && (row == final || Separate(row, final))
    ensures var backup := Backup(final);
      PairGain(row, final, backup, rest) == Gain(row == backup) - Gain(Backup(row) == final)
        + if backup < row then Gain(row <= backup + rest) + Gain(Backup(row) <= backup + rest) else 0
  {
    var backup, other := Backup(final), Backup(row);
    BackupFacts(final);
    BackupFacts(row);
    SiblingsAreBelowTheSame(row, final, backup);
    SiblingsAreBelowTheSame(other, final, backup);
    SiblingsAreBelowTheSame(backup, row, other);
    SiblingsAreBelowTheSame(final, row, other);
    HeldBelow(row, final, rest);
    HeldBelow(row, backup, rest);
    HeldBelow(other, final, rest);
    HeldBelow(other, backup, rest);
    if other == backup { BackupIsInjective(row, final); }
  }

  lemma PartialHoldsBothOrNeither(final: Path, rest: Path)
    requires |final| >= 2
    ensures PARTIAL <= final + rest <==> PARTIAL <= Backup(final) + rest
  {
    BackupFacts(final);
    SiblingsAreBelowTheSame(PARTIAL, final, Backup(final));
    HeldBelow(PARTIAL, final, rest);
    HeldBelow(PARTIAL, Backup(final), rest);
  }

  lemma RowsAreSeparate(rows: Manifest, i: nat, k: nat)
    requires Apart(rows) && i < |rows| && k < |rows|
    ensures rows[i] == rows[k] || Separate(rows[i], rows[k])
  {
  }

  /** No row's final path lies strictly below this row's backup path. */
  ghost predicate NoneBelowBackup(rows: Manifest, k: nat)
    requires Resolved(rows) && k < |rows|
  {
    forall i | 0 <= i < |rows| :: !(Backup(rows[k]) < rows[i])
  }

  lemma {:induction false} MarksOnly(rows: Manifest, final: Path, rest: Path)
    requires Resolved(rows) && final != []
    requires forall i | 0 <= i < |rows| ::
      PairGain(rows[i], final, Backup(final), rest) == Gain(rows[i] == Backup(final)) - Gain(Backup(rows[i]) == final)
    ensures PairsGain(rows, final, Backup(final), rest) == Count(rows, Backup(final)) - Count(Backups(rows), final)
  {
    if rows != [] {
      var n := |rows| - 1;
      MarksOnly(rows[..n], final, rest);
      assert Backups(rows)[..n] == Backups(rows[..n]);
    }
  }

  /** Whether the backup path is itself a final path, less whether the final path is itself a backup path. */
  function Marks(rows: Manifest, k: nat): int
    requires Resolved(rows) && k < |rows|
  {
    Gain(Backup(rows[k]) in rows) - Gain(rows[k] in Backups(rows))
  }

  lemma ReplacementGain(rows: Manifest, k: nat, rest: Path)
    requires Resolved(rows) && Apart(rows) && k < |rows| && (rest == [] || NoneBelowBackup(rows, k))
    ensures CoverGain(Regions(rows), rows[k], Backup(rows[k]), rest) == Marks(rows, k)
  {
    var final, backup := rows[k], Backup(rows[k]);
    forall i | 0 <= i < |rows|
      ensures PairGain(rows[i], final, backup, rest) == Gain(rows[i] == backup) - Gain(Backup(rows[i]) == final)
    {
      RowsAreSeparate(rows, i, k);
      RowGain(rows[i], final, rest);
      if backup < rows[i] {
        BackupFacts(rows[i]);
        SiblingsAreBelowTheSame(backup, rows[i], Backup(rows[i]));
        assert backup + rest == backup;
      }
    }
    MarksOnly(rows, final, rest);
    FinalsAndBackupsDiffer(rows);
    CountOfDistinct(rows, backup);
    CountOfDistinct(Backups(rows), final);
    GainByRows(rows, final, backup, rest);
    PartialHoldsBothOrNeither(final, rest);
  }

  /** A row strictly below the backup path makes some path gain more than the backup path itself does. */
  lemma RowBelowBackupGains(rows: Manifest, k: nat, j: nat)
    requires Resolved(rows) && Apart(rows) && k < |rows| && j < |rows| && Backup(rows[k]) < rows[j]
    ensures CoverGain(Regions(rows), rows[k], Backup(rows[k]), rows[j][|rows[k]|..]) > Marks(rows, k)
  {
    var final, backup, rest := rows[k], Backup(rows[k]), rows[j][|rows[k]|..];
    BackupFacts(final);
    forall i | 0 <= i < |rows| ensures PairGain(rows[i], final, backup, []) <= PairGain(rows[i], final, backup, rest) {
      RowsAreSeparate(rows, i, k);
      RowGain(rows[i], final, rest);
      RowGain(rows[i], final, []);
      BackupFacts(rows[i]);
      SiblingsAreBelowTheSame(backup, rows[i], Backup(rows[i]));
      assert backup + [] == backup;
    }
    assert PairGain(rows[j], final, backup, []) < PairGain(rows[j], final, backup, rest) by {
      RowsAreSeparate(rows, j, k);
      RowGain(rows[j], final, rest);
      RowGain(rows[j], final, []);
      BackupFacts(rows[j]);
      SiblingsAreBelowTheSame(backup, rows[j], Backup(rows[j]));
      assert backup + rest == rows[j] && backup + [] == backup;
    }
    PairsCompare(rows, final, backup, rest);
    GainByRows(rows, final, backup, rest);
    GainByRows(rows, final, backup, []);
    PartialHoldsBothOrNeither(final, rest);
    PartialHoldsBothOrNeither(final, []);
    ReplacementGain(rows, k, []);
  }

  /**
   * Whether a row's old final path can be set aside: no other row stands below its backup path, and the backup path is
   * a final path of the manifest just if the final path is a backup path of it.
   */
  ghost predicate ReplacementSafe(rows: Manifest, k: nat)
    requires Resolved(rows) && k < |rows|
  {
    NoneBelowBackup(rows, k) && (Backup(rows[k]) in rows <==> rows[k] in Backups(rows))
  }

  /**
   * With distinct final paths, none inside another, setting an old final path aside as its backup hides no bytes and
   * counts none twice, whatever stands there, if and only if the manifest is safe for that row.
   */
  lemma ReplacementConserves(rows: Manifest, k: nat)
    requires Resolved(rows) && Apart(rows) && k < |rows|
    ensures AlwaysConserved(rows, rows[k], Backup(rows[k])) <==> ReplacementSafe(rows, k)
  {
    BackupFacts(rows[k]);
    ConservedExactlyWhenCoverIsEqual(rows, rows[k], Backup(rows[k]));
    ReplacementGain(rows, k, []);
    if !NoneBelowBackup(rows, k) {
      var j :| 0 <= j < |rows| && Backup(rows[k]) < rows[j];
      RowBelowBackupGains(rows, k, j);
    } else {
      forall rest: Path ensures CoverGain(Regions(rows), rows[k], Backup(rows[k]), rest) == Marks(rows, k) {
        ReplacementGain(rows, k, rest);
      }
    }
  }

  /** With no row below the backup path, the whole tree is counted once more or once less, or as before. */
  lemma ReplacementChange(files: Files, rows: Manifest, k: nat)
    requires Resolved(rows) && Apart(rows) && k < |rows| && NoneBelowBackup(rows, k)
    requires TreeShaped(files) && Movable(files, rows[k], Backup(rows[k]))
    ensures StagingBytes(Move(files, rows[k], Backup(rows[k])), rows) ==
      StagingBytes(files, rows) + Marks(rows, k) * SizeUnder(files, rows[k])
  {
    forall rest: Path ensures CoverGain(Regions(rows), rows[k], Backup(rows[k]), rest) == Marks(rows, k) {
      ReplacementGain(rows, k, rest);
    }
    StagingAfterEvenMove(files, rows, rows[k], Backup(rows[k]), Marks(rows, k));
  }

  // ---- promoting a staged member -------------------------------------------------------------------

  /** How many rows have their backup at or above a path. */
  function BackupsAbove(rows: Manifest, p: Path): int
    requires Resolved(rows)
  {
    Cover(Backups(rows), p)
  }

  /** The final paths and the backup paths of a manifest. */
  function Named(rows: Manifest): seq<Path>
    requires Resolved(rows)
  {
    rows + Backups(rows)
  }

  /** Going down, a path is held by no fewer places, and by more exactly where one of them begins. */
  lemma {:induction false} CoverGrows(places: seq<Path>, p: Path, rest: Path)
    ensures Cover(places, p) <= Cover(places, p + rest)
    ensures Cover(places, p) == Cover(places, p + rest) <==> forall i | 0 <= i < |places| :: !(p < places[i] && places[i] <= p + rest)
  {
    if places != [] {
      var n := |places| - 1;
      CoverGrows(places[..n], p, rest);
      HeldBelow(places[n], p, rest);
      assert forall i | 0 <= i < n :: places[..n][i] == places[i];
    }
  }

  /** What one row holds of a path below a promoted final path. */
  lemma PromotedRow(row: Path, final: Path, rest: Path)
    requires row != [] && final != [] && (row == final || Separate(row, final))
    ensures PairCover(row, final + rest) == Gain(row == final) + Gain(Backup(row) <= final)
  {
    BackupFacts(row);
    SiblingsAreBelowTheSame(final, row, Backup(row));
    HeldBelow(row, final, rest);
    HeldBelow(Backup(row), final, rest);
  }

  lemma {:induction false} PromotedRows(rows: Manifest, final: Path, rest: Path)
    requires Resolved(rows) && final != []
    requires forall i | 0 <= i < |rows| :: rows[i] == final || Separate(rows[i], final)
    ensures PairsCover(rows, final + rest) == Count(rows, final) + BackupsAbove(rows, final)
  {
    if rows != [] {
      var n := |rows| - 1;
      PromotedRows(rows[..n], final, rest);
      PromotedRow(rows[n], final, rest);
      assert Backups(rows)[..n] == Backups(rows[..n]);
    }
  }

  /** A promoted path leaves the partials and comes below its row's final path and whatever holds that. */
  lemma PromotionGain(rows: Manifest, k: nat, src: Path, rest: Path)
    requires Resolved(rows) && Apart(rows) && k < |rows| && PARTIAL <= src
    ensures CoverGain(Regions(rows), src, rows[k], rest) ==
      Gain(PARTIAL <= rows[k]) + BackupsAbove(rows, rows[k]) - Cover(Named(rows), src + rest)
  {
    forall i | 0 <= i < |rows| ensures rows[i] == rows[k] || Separate(rows[i], rows[k]) { RowsAreSeparate(rows, i, k); }
    PromotedRows(rows, rows[k], rest);
    FinalsAndBackupsDiffer(rows);
    CountOfDistinct(rows, rows[k]);
    assert rows[k] in rows;
    CoverByRows(rows, rows[k] + rest);
    CoverByRows(rows, src + rest);
    CoverOfPairs(rows, src + rest);
    CoverOfConcat(rows, Backups(rows), src + rest);
    HeldBelow(PARTIAL, src, rest);
    HeldBelow(PARTIAL, rows[k], rest);
  }

  /**
   * Whether a member staged at `src` can be promoted to a row's final path: nothing the manifest names begins inside
   * the staged tree, and as many of its places hold the staged path as hold the final path besides the row itself.
   */
  ghost predicate PromotionSafe(rows: Manifest, k: nat, src: Path)
    requires Resolved(rows) && k < |rows|
  {
    && (forall i | 0 <= i < |Named(rows)| :: !(src < Named(rows)[i]))
    && Cover(Named(rows), src) == Gain(PARTIAL <= rows[k]) + BackupsAbove(rows, rows[k])
  }

  /** Promoting is invisible to the count, whatever is staged, if and only if the manifest is safe for it. */
  lemma PromotionIsConserved(rows: Manifest, k: nat, src: Path)
    requires Resolved(rows) && Apart(rows) && k < |rows| && PARTIAL <= src && Separate(src, rows[k])
    ensures AlwaysConserved(rows, src, rows[k]) <==> PromotionSafe(rows, k, src)
  {
    ConservedExactlyWhenCoverIsEqual(rows, src, rows[k]);
    var held := Gain(PARTIAL <= rows[k]) + BackupsAbove(rows, rows[k]);
    forall rest: Path ensures CoverGain(Regions(rows), src, rows[k], rest) == 0 <==> Cover(Named(rows), src + rest) == held {
      PromotionGain(rows, k, src, rest);
    }
    HeldAlike(Named(rows), src, held);
  }

  /** All paths below one are held by as many places exactly if no place begins below it. */
  lemma HeldAlike(places: seq<Path>, p: Path, m: int)
    ensures (forall rest: Path :: Cover(places, p + rest) == m) <==>
      (forall i | 0 <= i < |places| :: !(p < places[i])) && Cover(places, p) == m
  {
    assert p + [] == p;
    if i :| 0 <= i < |places| && p < places[i] {
      var rest := places[i][|p|..];
      assert p + rest == places[i];
      CoverGrows(places, p, rest);
      assert Cover(places, p + []) < Cover(places, p + rest);
    } else {
      forall rest: Path ensures Cover(places, p + rest) == Cover(places, p) {
        CoverGrows(places, p, rest);
      }
      assert Cover(places, p + []) == Cover(places, p);
    }
  }

  /** No row belongs to a system that is named like the staging directory. */
  ghost predicate OutsidePartial(rows: Manifest)
    requires Resolved(rows)
  {
    forall i | 0 <= i < |rows| :: rows[i][0] != PARTIAL[0]
  }

  lemma NothingNamedInPartial(rows: Manifest, p: Path)
    requires Resolved(rows) && OutsidePartial(rows) && PARTIAL <= p
    ensures Cover(Named(rows), p) == 0
  {
    forall i | 0 <= i < |Named(rows)| ensures !(Named(rows)[i] <= p) {
      var j := if i < |rows| then i else i - |rows|;
      assert Named(rows)[i] == rows[j] || Named(rows)[i] == Backup(rows[j]);
      assert Named(rows)[i][0] == rows[j][0] && p[0] == PARTIAL[0];
    }
    CoverIsZeroExactly(Named(rows), p);
  }

  lemma {:induction false} CoverIsZeroExactly(places: seq<Path>, p: Path)
    ensures Cover(places, p) >= 0
    ensures Cover(places, p) == 0 <==> forall i | 0 <= i < |places| :: !(places[i] <= p)
  {
    if places != [] {
      CoverIsZeroExactly(places[..|places| - 1], p);
      assert forall i | 0 <= i < |places| - 1 :: places[..|places| - 1][i] == places[i];
    }
  }

  /**
   * If no system is named like the staging directory, a promotion counts the moved bytes once more for every row whose
   * backup lies at or above the final path; so it is invisible exactly if there is no such row, or no byte to move.
   */
  lemma PromotionConserves(files: Files, rows: Manifest, k: nat, src: Path)
    requires Resolved(rows) && Apart(rows) && OutsidePartial(rows) && k < |rows| && PARTIAL <= src
    requires TreeShaped(files) && Movable(files, src, rows[k])
    ensures StagingBytes(Move(files, src, rows[k]), rows) ==
      StagingBytes(files, rows) + BackupsAbove(rows, rows[k]) * SizeUnder(files, src)
    ensures StagingBytes(Move(files, src, rows[k]), rows) == StagingBytes(files, rows) <==>
      SizeUnder(files, src) == 0 || forall i | 0 <= i < |rows| :: !(Backup(rows[i]) <= rows[k])
  {
    var n := BackupsAbove(rows, rows[k]);
    forall rest: Path ensures CoverGain(Regions(rows), src, rows[k], rest) == n {
      PromotionGain(rows, k, src, rest);
      HeldBelow(PARTIAL, src, rest);
      NothingNamedInPartial(rows, src + rest);
    }
    StagingAfterEvenMove(files, rows, src, rows[k], n);
    CoverIsZeroExactly(Backups(rows), rows[k]);
    ZeroProduct(n, SizeUnder(files, src));
    assert (forall i | 0 <= i < |rows| :: !(Backups(rows)[i] <= rows[k])) <==> forall i | 0 <= i < |rows| :: !(Backup(rows[i]) <= rows[k]);
  }

  lemma ZeroProduct(a: int, b: int)
    ensures a * b == 0 <==> a == 0 || b == 0
  {
    if a > 0 && b > 0 { assert a * b > 0; }
    if a > 0 && b < 0 { assert a * -b > 0; }
    if a < 0 && b > 0 { assert -a * b > 0; }
    if a < 0 && b < 0 { assert -a * -b > 0; }
  }

  // ---- where distinct final paths are not enough -----------------------------------------------

  const GAME: Path := ["psx", "game"]

  const GAME_BACKUP: Path := ["psx", "game.romcloud-replaced"]

  const DISC: Path := ["disc1"]

  lemma Names()
    ensures Backup(GAME) == GAME_BACKUP && "game" != "game.romcloud-replaced"
    ensures |GAME[1]| < |GAME_BACKUP[1]|
  {
    assert "game" + BACKUP_SUFFIX == "game.romcloud-replaced";
    assert GAME[..1] == ["psx"];
  }

  /** A final path that is another row's backup path: the bytes set aside are counted twice. */
  lemma BackupClashCountsTwice(n: nat)
    requires n > 0
    ensures var rows, files := [GAME, GAME_BACKUP], OneFile(GAME, n);
      && Resolved(rows) && Apart(rows) && Backup(GAME) == GAME_BACKUP
      && TreeShaped(files) && Movable(files, GAME, GAME_BACKUP)
      && StagingBytes(Move(files, GAME, GAME_BACKUP), rows) == StagingBytes(files, rows) + n
  {
    var rows := [GAME, GAME_BACKUP];
    Names();
    BackupFacts(GAME);
    assert rows[0] == GAME && rows[1] == GAME_BACKUP;
    assert Apart(rows);
    ClashMarks();
    ReplacementGain(rows, 0, []);
    OneFileShows(rows, GAME, GAME_BACKUP, [], n);
    assert GAME + [] == GAME;
  }

  lemma ClashMarks()
    ensures Resolved([GAME, GAME_BACKUP]) && Marks([GAME, GAME_BACKUP], 0) == 1
  {
    var rows := [GAME, GAME_BACKUP];
    Names();
    assert rows[1] == GAME_BACKUP && GAME_BACKUP in rows;
    forall i | 0 <= i < |rows| ensures Backups(rows)[i] != GAME {
      assert |Backup(rows[i])[1]| > |rows[i][1]| >= |GAME[1]|;
    }
  }

  /**
   * A final path below another row's backup path: the place of the moved directory is counted once before and once
   * after, and yet the file that comes to stand at the other row's final path is counted twice.
   */
  lemma NestedClashCountsTwice(n: nat)
    requires n > 0
    ensures var rows, files := [GAME, GAME_BACKUP + DISC], OneFile(GAME + DISC, n);
      && Resolved(rows) && Apart(rows) && Backup(GAME) == GAME_BACKUP
      && Cover(Regions(rows), GAME) == Cover(Regions(rows), GAME_BACKUP)
      && TreeShaped(files) && Movable(files, GAME, GAME_BACKUP)
      && StagingBytes(Move(files, GAME, GAME_BACKUP), rows) == StagingBytes(files, rows) + n
  {
    var rows := [GAME, GAME_BACKUP + DISC];
    Names();
    BackupFacts(GAME);
    assert rows[0] == GAME && rows[1] == GAME_BACKUP + DISC;
    assert Apart(rows);
    NestedClashGain([]);
    NestedClashGain(DISC);
    assert GAME + [] == GAME && GAME_BACKUP + [] == GAME_BACKUP;
    OneFileShows(rows, GAME, GAME_BACKUP, DISC, n);
  }

  lemma NestedClashGain(rest: Path)
    requires rest == [] || rest == DISC
    ensures var rows := [GAME, GAME_BACKUP + DISC]; Resolved(rows) && CoverGain(Regions(rows), GAME, GAME_BACKUP, rest) == |rest|
  {
    var row := GAME_BACKUP + DISC;
    var rows := [GAME, row];
    Names();
    BackupFacts(GAME);
    BackupFacts(row);
    RowGain(GAME, GAME, rest);
    RowGain(row, GAME, rest);
    PartialHoldsBothOrNeither(GAME, rest);
    GainByRows(rows, GAME, GAME_BACKUP, rest);
    assert row[2] == DISC[0] && |Backup(row)[2]| > |row[2]|;
    assert !(Backup(row) <= GAME_BACKUP + rest);
    assert PairGain(row, GAME, GAME_BACKUP, rest) == |rest|;
    assert PairGain(GAME, GAME, GAME_BACKUP, rest) == 0;
    assert rows[..1] == [GAME] && [GAME][..0] == [];
    assert PairsGain([GAME], GAME, GAME_BACKUP, rest) == 0;
    assert PairsGain(rows, GAME, GAME_BACKUP, rest) == |rest|;
  }
}
