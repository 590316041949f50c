/** One merge domain across one remote and many devices: the three-way rule and nothing else. */
module DomainLine {
  import opened Options
  import opened SaveContainers

  type Version = Option<Domain>

  /** What the remote holds, what each device holds, and what each device's baseline records; absence is a version too. */
  datatype Line = Line(remote: Version, local: seq<Version>, base: seq<Version>)

  datatype Move = Write(device: nat, version: Version) | Merge3(device: nat)

  ghost predicate Shaped(l: Line) {
    |l.local| == |l.base|
  }

  ghost predicate Playable(l: Line, moves: seq<Move>) {
    Shaped(l) && forall k | 0 <= k < |moves| :: moves[k].device < |l.local|
  }

  function Outcome3(l: Line, i: nat): (r: Outcome)
    requires i < |l.local| == |l.base|
  {
    ThreeWay(l.base[i], l.local[i], l.remote)
  }

  function Play1(l: Line, m: Move): (r: Line)
    requires |l.local| == |l.base| && m.device < |l.local|
    ensures |r.local| == |r.base| == |l.local|
  {
    match m
    case Write(i, v) => l.(local := l.local[i := v])
    case Merge3(i) => var out := Outcome3(l, i); Line(out.remote, l.local[i := out.local], l.base[i := out.base])
  }

  /** The line after a run of moves; runs grow at the end. */
  ghost function Play(l: Line, moves: seq<Move>): (r: Line)
    requires Playable(l, moves)
    ensures Shaped(r) && |r.local| == |l.local|
  {
    if moves == [] then l else Play1(Play(l, moves[..|moves| - 1]), moves[|moves| - 1])
  }

  /** A reconcile of this device would report a conflict now. */
  ghost predicate ConflictAt(l: Line, i: nat)
    requires Shaped(l) && i < |l.local|
  {
    Outcome3(l, i).action == Conflict
  }

  // ---- a baseline is what the device last saw on the remote ----------------------------

  /** The remote version right after the device's last reconcile that met no conflict. */
  ghost function LastSeen(l: Line, moves: seq<Move>, i: nat): Version
    requires Playable(l, moves) && i < |l.local|
  {
    if moves == [] then l.base[i]
    else
      var before, m := moves[..|moves| - 1], moves[|moves| - 1];
      if m == Merge3(i) && !ConflictAt(Play(l, before), i) then Play(l, moves).remote
      else LastSeen(l, before, i)
  }

  lemma {:induction false} BaselineIsLastSeen(l: Line, moves: seq<Move>, i: nat)
    requires Playable(l, moves) && i < |l.local|
    ensures Play(l, moves).base[i] == LastSeen(l, moves, i)
  {
    if moves != [] {
      BaselineIsLastSeen(l, moves[..|moves| - 1], i);
    }
  }

  /**
   * A merge replaces only versions its device has seen: a side changes only when it held exactly what the device
   * last saw on the remote and the other side had moved on; if both moved apart nothing changes.
   */
  lemma NothingUnseenIsReplaced(l: Line, moves: seq<Move>, i: nat)
    requires Playable(l, moves) && i < |l.local|
    ensures NothingUnseenReplaced(Play(l, moves), Play1(Play(l, moves), Merge3(i)), i, LastSeen(l, moves, i))
  {
    BaselineIsLastSeen(l, moves, i);
    var t := Play(l, moves);
    if ConflictAt(t, i) { assert t.local[i := t.local[i]] == t.local && t.base[i := t.base[i]] == t.base; }
  }

  ghost predicate NothingUnseenReplaced(t: Line, t': Line, i: nat, seen: Version)
    requires Shaped(t) && Shaped(t') && |t'.local| == |t.local| && i < |t.local|
  {
    && t.base[i] == seen
    && (t'.remote != t.remote ==> t.remote == seen && t.local[i] != seen && t'.remote == t.local[i])
    && (t'.local[i] != t.local[i] ==> t.local[i] == seen && t.remote != seen && t'.local[i] == t.remote)
    && (ConflictAt(t, i) <==> t.local[i] != t.remote && t.local[i] != seen && t.remote != seen)
    && (ConflictAt(t, i) ==> t' == t)
    && (!ConflictAt(t, i) ==> t'.local[i] == t'.remote == t'.base[i])
    && (forall j | 0 <= j < |t.local| && j != i :: t'.local[j] == t.local[j] && t'.base[j] == t.base[j])
  }

  // ---- an unsynced version survives until it has been published ------------------------

  /** No write of this device in the run changes what it holds. */
  ghost predicate LeavesAlone(moves: seq<Move>, i: nat, v: Version) {
    forall k | 0 <= k < |moves| && moves[k].Write? && moves[k].device == i :: moves[k].version == v
  }

  /** At this move the device itself synchronises: the remote then holds its version, and its baseline records it. */
  ghost predicate SyncsAt(l: Line, moves: seq<Move>, k: nat, i: nat, v: Version)
    requires Playable(l, moves) && i < |l.local|
  {
    k < |moves| && moves[k] == Merge3(i) && Play(l, moves[..k + 1]).remote == v && Play(l, moves[..k + 1]).base[i] == v
  }

  lemma EarlierSync(l: Line, moves: seq<Move>, k: nat, i: nat, v: Version)
    requires Playable(l, moves) && i < |l.local| && moves != []
    ensures SyncsAt(l, moves[..|moves| - 1], k, i, v) ==> SyncsAt(l, moves, k, i, v)
  {
    if k < |moves| - 1 { assert moves[..|moves| - 1][..k + 1] == moves[..k + 1]; }
  }

  /** A version that a device has not synchronised stays, still unsynchronised, until that device itself synchronises it. */
  lemma {:induction false} UnsyncedVersionsSurvive(l: Line, moves: seq<Move>, i: nat, v: Version)
    requires Playable(l, moves) && i < |l.local|
    requires l.local[i] == v && l.base[i] != v && LeavesAlone(moves, i, v)
    ensures (exists k: nat :: SyncsAt(l, moves, k, i, v)) || (Play(l, moves).local[i] == v && Play(l, moves).base[i] == l.base[i])
  {
    if moves != [] {
      var n := |moves| - 1;
      UnsyncedVersionsSurvive(l, moves[..n], i, v);
      if k: nat :| SyncsAt(l, moves[..n], k, i, v) {
        EarlierSync(l, moves, k, i, v);
      } else {
        assert moves[..n + 1] == moves;
        assert moves[n] == Merge3(i) && Play(l, moves).base[i] != l.base[i] ==> SyncsAt(l, moves, n, i, v);
      }
    }
  }

  // ---- quiescent convergence -----------------------------------------------------------

  ghost predicate OnlyMerges(moves: seq<Move>) {
    forall k | 0 <= k < |moves| :: moves[k].Merge3?
  }

  ghost predicate EveryoneMerges(l: Line, moves: seq<Move>) {
    forall i: nat | i < |l.local| :: Merge3(i) in moves
  }

  ghost predicate NoConflict(l: Line, moves: seq<Move>)
    requires Playable(l, moves)
  {
    forall k | 0 <= k < |moves| :: !ConflictAt(Play(l, moves[..k]), moves[k].device)
  }

  lemma NoConflictEarlier(l: Line, moves: seq<Move>)
    requires Playable(l, moves) && moves != [] && NoConflict(l, moves)
    ensures var before, m := moves[..|moves| - 1], moves[|moves| - 1];
      NoConflict(l, before) && !ConflictAt(Play(l, before), m.device)
  {
    var before := moves[..|moves| - 1];
    assert moves[..|before|] == before;
    forall k | 0 <= k < |before| ensures !ConflictAt(Play(l, before[..k]), before[k].device) {
      assert before[..k] == moves[..k] && before[k] == moves[k];
    }
  }

  lemma MergeSettles(t: Line, j: nat, i: nat)
    requires Shaped(t) && i < |t.local| && j < |t.local|
    requires !ConflictAt(t, j) && (i == j || t.local[i] == t.base[i])
    ensures var r := Play1(t, Merge3(j)); r.local[i] == r.base[i]
  {
  }

  lemma EarlierMove(moves: seq<Move>, m: Move)
    requires m in moves && moves[|moves| - 1] != m
    ensures m in moves[..|moves| - 1]
  {
    assert moves == moves[..|moves| - 1] + [moves[|moves| - 1]];
  }

  lemma {:induction false} AfterOwnMerge(l: Line, moves: seq<Move>, i: nat)
    requires Playable(l, moves) && OnlyMerges(moves) && NoConflict(l, moves) && i < |l.local| && Merge3(i) in moves
    ensures Play(l, moves).local[i] == Play(l, moves).base[i]
  {
    var before, j := moves[..|moves| - 1], moves[|moves| - 1].device;
    NoConflictEarlier(l, moves);
    if i != j {
      EarlierMove(moves, Merge3(i));
      AfterOwnMerge(l, before, i);
    }
    MergeSettles(Play(l, before), j, i);
  }

  /** Nobody has anything to upload: every device holds what its baseline records. */
  ghost predicate Quiet(l: Line) {
    Shaped(l) && forall i | 0 <= i < |l.local| :: l.local[i] == l.base[i]
  }

  lemma {:induction false} RoundOfDownloads(l: Line, moves: seq<Move>)
    requires Playable(l, moves) && OnlyMerges(moves) && Quiet(l)
    ensures Quiet(Play(l, moves)) && Play(l, moves).remote == l.remote
    ensures forall i: nat | i < |l.local| && Merge3(i) in moves :: Play(l, moves).local[i] == l.remote
  {
    if moves != [] {
      var before, m := moves[..|moves| - 1], moves[|moves| - 1];
      RoundOfDownloads(l, before);
      forall i: nat | i < |l.local| && Merge3(i) in moves ensures Play(l, moves).local[i] == l.remote {
        if m != Merge3(i) { EarlierMove(moves, Merge3(i)); }
      }
    }
  }

  lemma TwoRoundsSettle(l: Line, first: seq<Move>, second: seq<Move>)
    requires Playable(l, first) && Playable(l, second)
    requires OnlyMerges(first) && EveryoneMerges(l, first) && NoConflict(l, first)
    requires OnlyMerges(second) && EveryoneMerges(l, second)
    ensures forall k | 0 <= k <= |second| :: Play(Play(l, first), second[..k]).remote == Play(l, first).remote
    ensures var r := Play(Play(l, first), second);
      forall i: nat | i < |l.local| :: r.local[i] == r.base[i] == r.remote
  {
    var middle := Play(l, first);
    forall i: nat | i < |l.local| ensures middle.local[i] == middle.base[i] {
      AfterOwnMerge(l, first, i);
    }
    forall k | 0 <= k <= |second| ensures Play(middle, second[..k]).remote == middle.remote {
      RoundOfDownloads(middle, second[..k]);
    }
    RoundOfDownloads(middle, second);
  }
}
