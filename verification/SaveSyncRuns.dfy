/** Devices that edit and reconcile one container against one remote, in any order. */
module SaveSyncRuns {
  import opened Options
  import opened SaveContainers
  import opened ReconcileTheorems
  import opened DomainLine

  /** A device's own copy of the container and the last logical state it saw converge. */
  datatype Device = Device(local: Snapshot, baseline: Option<Baseline>)

  datatype State = State(remote: Snapshot, devices: seq<Device>)

  /** An edit replaces a device's snapshot by any other of the same container: additions, changes and deletions alike. */
  datatype Step = Edit(device: nat, local: Snapshot) | Sync(device: nat)

  ghost predicate Valid(s: State) {
    forall i | 0 <= i < |s.devices| :: Compatible(s.devices[i].local, s.remote, s.devices[i].baseline)
  }

  ghost predicate Possible(s: State, step: Step) {
    step.device < |s.devices| && (step.Edit? ==> step.local.id == s.remote.id)
  }

  /** One step: a reconcile plans, builds both targets, installs them, and stores the next baseline. */
  ghost function Apply(s: State, step: Step): (s': State)
    requires Valid(s) && Possible(s, step)
    ensures Valid(s') && |s'.devices| == |s.devices| && s'.remote.id == s.remote.id
  {
    var d := s.devices[step.device];
    match step
    case Edit(i, local) => s.(devices := s.devices[i := d.(local := local)])
    case Sync(i) =>
      NextMerge(d.local, s.remote, d.baseline);
      var plan := Reconcile(d.local, s.remote, d.baseline).value;
      State(
        Target(plan, d.local, s.remote, "remote").value,
        s.devices[i := Device(Target(plan, d.local, s.remote, "local").value, Some(plan.nextBaseline))])
  }

  ghost predicate Runnable(s: State, steps: seq<Step>) {
    Valid(s) && forall k | 0 <= k < |steps| :: Possible(s, steps[k])
  }

  /** The state after a run; runs grow at the end. */
  ghost function Run(s: State, steps: seq<Step>): (r: State)
    requires Runnable(s, steps)
    ensures Valid(r) && |r.devices| == |s.devices| && r.remote.id == s.remote.id
  {
    if steps == [] then s else Apply(Run(s, steps[..|steps| - 1]), steps[|steps| - 1])
  }

  // ---- one merge domain of a state, and of a run ---------------------------------------

  ghost function BaseOf(d: Device, n: string): Version {
    if d.baseline == None then None else Lookup(DomainMap(d.baseline.value.domains), n)
  }

  ghost function LocalVersions(devices: seq<Device>, n: string): (r: seq<Version>)
    ensures |r| == |devices| && forall i | 0 <= i < |r| :: r[i] == Lookup(View(devices[i].local), n)
  {
    if devices == [] then [] else [Lookup(View(devices[0].local), n)] + LocalVersions(devices[1..], n)
  }

  ghost function BaseVersions(devices: seq<Device>, n: string): (r: seq<Version>)
    ensures |r| == |devices| && forall i | 0 <= i < |r| :: r[i] == BaseOf(devices[i], n)
  {
    if devices == [] then [] else [BaseOf(devices[0], n)] + BaseVersions(devices[1..], n)
  }

  /** Everything a state says about one merge domain. */
  ghost function LineOf(s: State, n: string): (r: Line)
    ensures Shaped(r) && |r.local| == |s.devices|
  {
    Line(Lookup(View(s.remote), n), LocalVersions(s.devices, n), BaseVersions(s.devices, n))
  }

  ghost function MoveOf(step: Step, n: string): Move {
    match step
    case Edit(i, local) => Write(i, Lookup(View(local), n))
    case Sync(i) => Merge3(i)
  }

  ghost function MovesOf(steps: seq<Step>, n: string): (r: seq<Move>)
    ensures |r| == |steps| && forall k | 0 <= k < |r| :: r[k] == MoveOf(steps[k], n)
  {
    if steps == [] then [] else [MoveOf(steps[0], n)] + MovesOf(steps[1..], n)
  }

  lemma OneDeviceChanges(devices: seq<Device>, i: nat, d: Device, n: string)
    requires i < |devices|
    ensures LocalVersions(devices[i := d], n) == LocalVersions(devices, n)[i := Lookup(View(d.local), n)]
    ensures BaseVersions(devices[i := d], n) == BaseVersions(devices, n)[i := BaseOf(d, n)]
  {
  }

  /** What a reconcile leaves in one domain. */
  lemma SyncEffect(s: State, i: nat, n: string)
    requires Valid(s) && i < |s.devices|
    ensures var out, s' := Outcome3(LineOf(s, n), i), Apply(s, Sync(i));
      && Lookup(View(s'.remote), n) == out.remote
      && Lookup(View(s'.devices[i].local), n) == out.local && BaseOf(s'.devices[i], n) == out.base
      && s'.devices == s.devices[i := s'.devices[i]]
  {
    var d := s.devices[i];
    ReconcileEffect(d.local, s.remote, d.baseline, n);
    MergeReadsLine(d, s.remote, n);
  }

  lemma MergeReadsLine(d: Device, remote: Snapshot, n: string)
    ensures MergeOf(d.local, remote, d.baseline).At(n) == ThreeWay(BaseOf(d, n), Lookup(View(d.local), n), Lookup(View(remote), n))
  {
  }

  lemma SyncIsMerge3(s: State, i: nat, n: string)
    requires Valid(s) && i < |s.devices|
    ensures LineOf(Apply(s, Sync(i)), n) == Play1(LineOf(s, n), Merge3(i))
  {
    SyncEffect(s, i, n);
    var d := Apply(s, Sync(i)).devices[i];
    OneDeviceChanges(s.devices, i, d, n);
  }

  lemma EditIsWrite(s: State, i: nat, local: Snapshot, n: string)
    requires Valid(s) && Possible(s, Edit(i, local))
    ensures LineOf(Apply(s, Edit(i, local)), n) == Play1(LineOf(s, n), MoveOf(Edit(i, local), n))
  {
    var l, r := Play1(LineOf(s, n), MoveOf(Edit(i, local), n)), LineOf(Apply(s, Edit(i, local)), n);
    assert r.local == l.local;
    assert r.base == l.base;
  }

  /** Every step acts on each domain through that domain alone: domains never influence one another. */
  lemma StepIsMove(s: State, step: Step, n: string)
    requires Valid(s) && Possible(s, step)
    ensures LineOf(Apply(s, step), n) == Play1(LineOf(s, n), MoveOf(step, n))
  {
    match step
    case Edit(i, local) => EditIsWrite(s, i, local, n);
    case Sync(i) => SyncIsMerge3(s, i, n);
  }

  lemma MovesOfPrefix(steps: seq<Step>, k: nat, n: string)
    requires k <= |steps|
    ensures MovesOf(steps, n)[..k] == MovesOf(steps[..k], n)
  {
  }

  /** The whole-container system, seen through one domain, is the one-domain system, for every run. */
  lemma {:induction false} RunIsPlay(s: State, steps: seq<Step>, n: string)
    requires Runnable(s, steps)
    ensures Playable(LineOf(s, n), MovesOf(steps, n))
    ensures LineOf(Run(s, steps), n) == Play(LineOf(s, n), MovesOf(steps, n))
  {
    if steps != [] {
      var before, step := steps[..|steps| - 1], steps[|steps| - 1];
      RunIsPlay(s, before, n);
      StepIsMove(Run(s, before), step, n);
      MovesOfPrefix(steps, |steps| - 1, n);
    }
  }

  lemma PrefixIsPlay(s: State, steps: seq<Step>, k: nat, n: string)
    requires Runnable(s, steps) && k <= |steps|
    ensures Runnable(s, steps[..k]) && Playable(LineOf(s, n), MovesOf(steps, n)[..k])
    ensures LineOf(Run(s, steps[..k]), n) == Play(LineOf(s, n), MovesOf(steps, n)[..k])
  {
    RunIsPlay(s, steps[..k], n);
    MovesOfPrefix(steps, k, n);
  }

  // ---- what holds in every run ---------------------------------------------------------

  /** The remote version right after the device's last reconcile of the domain that met no conflict. */
  ghost function Seen(s: State, steps: seq<Step>, i: nat, n: string): Version
    requires Runnable(s, steps) && i < |s.devices|
  {
    RunIsPlay(s, steps, n);
    LastSeen(LineOf(s, n), MovesOf(steps, n), i)
  }

  /**
   * No reconcile in any run replaces a version its device has not seen: a side changes only when it held exactly
   * what the device last saw on the remote and the other side had moved on; if both moved apart nothing changes.
   */
  lemma NothingUnseenIsOverwritten(s: State, steps: seq<Step>, i: nat, n: string)
    requires Runnable(s, steps) && i < |s.devices|
    ensures NothingUnseenReplaced(
      LineOf(Run(s, steps), n), LineOf(Apply(Run(s, steps), Sync(i)), n), i, Seen(s, steps, i, n))
  {
    RunIsPlay(s, steps, n);
    NothingUnseenIsReplaced(LineOf(s, n), MovesOf(steps, n), i);
    StepIsMove(Run(s, steps), Sync(i), n);
  }

  /** At this step the device itself synchronises the domain: the remote then holds its version, and its baseline records it. */
  ghost predicate SyncsOwn(s: State, steps: seq<Step>, k: nat, i: nat, n: string, v: Version)
    requires Runnable(s, steps) && i < |s.devices|
  {
    && k < |steps| && steps[k] == Sync(i) && Runnable(s, steps[..k + 1])
    && var l := LineOf(Run(s, steps[..k + 1]), n); l.remote == v && l.base[i] == v
  }

  /**
   * Whatever the other devices do and however often anyone reconciles, an unsynced edit (a deletion included) stays
   * where it is, still unsynced, until a reconcile of this very device has brought it to the remote.
   */
  lemma UnsyncedEditsSurvive(s: State, steps: seq<Step>, i: nat, n: string, v: Version)
    requires Runnable(s, steps) && i < |s.devices|
    requires LineOf(s, n).local[i] == v && LineOf(s, n).base[i] != v
    requires forall k | 0 <= k < |steps| && steps[k].Edit? && steps[k].device == i :: Lookup(View(steps[k].local), n) == v
    ensures (exists k: nat :: SyncsOwn(s, steps, k, i, n, v))
      || (LineOf(Run(s, steps), n).local[i] == v && LineOf(Run(s, steps), n).base[i] == LineOf(s, n).base[i])
  {
    RunIsPlay(s, steps, n);
    var l, moves := LineOf(s, n), MovesOf(steps, n);
    UnsyncedVersionsSurvive(l, moves, i, v);
    if k: nat :| SyncsAt(l, moves, k, i, v) {
      SyncIsOwn(s, steps, k, i, n, v);
    }
  }

  lemma SyncIsOwn(s: State, steps: seq<Step>, k: nat, i: nat, n: string, v: Version)
    requires Runnable(s, steps) && i < |s.devices| && Playable(LineOf(s, n), MovesOf(steps, n))
    requires SyncsAt(LineOf(s, n), MovesOf(steps, n), k, i, v)
    ensures SyncsOwn(s, steps, k, i, n, v)
  {
    PrefixIsPlay(s, steps, k + 1, n);
    assert MovesOf(steps, n)[k] == MoveOf(steps[k], n);
  }

  // ---- quiescent convergence -----------------------------------------------------------

  ghost predicate OnlySyncs(steps: seq<Step>) {
    forall k | 0 <= k < |steps| :: steps[k].Sync?
  }

  ghost predicate EveryDeviceSyncs(s: State, steps: seq<Step>) {
    forall i: nat | i < |s.devices| :: Sync(i) in steps
  }

  /** No reconcile of the round meets a conflict in this domain; see ConflictFreeAt. */
  ghost predicate ConflictFree(s: State, steps: seq<Step>, n: string)
    requires Runnable(s, steps)
  {
    RunIsPlay(s, steps, n);
    NoConflict(LineOf(s, n), MovesOf(steps, n))
  }

  lemma ConflictFreeAt(s: State, steps: seq<Step>, n: string, k: nat)
    requires Runnable(s, steps) && k < |steps|
    ensures Runnable(s, steps[..k])
    ensures ConflictFree(s, steps, n) ==> !ConflictAt(LineOf(Run(s, steps[..k]), n), steps[k].device)
  {
    PrefixIsPlay(s, steps, k, n);
    assert MovesOf(steps, n)[k].device == steps[k].device;
  }

  lemma RoundOfMerges(s: State, steps: seq<Step>, n: string)
    requires Runnable(s, steps) && OnlySyncs(steps) && EveryDeviceSyncs(s, steps)
    ensures OnlyMerges(MovesOf(steps, n)) && EveryoneMerges(LineOf(s, n), MovesOf(steps, n))
  {
    forall i: nat | i < |s.devices| ensures Merge3(i) in MovesOf(steps, n) {
      assert Sync(i) in steps;
      var k :| 0 <= k < |steps| && steps[k] == Sync(i);
      assert MovesOf(steps, n)[k] == Merge3(i);
    }
  }

  /**
   * Once edits have stopped, two rounds are enough: if every device reconciles at least once, in any order and
   * without a conflict in the domain, and then at least once more in any order, the second round never moves the
   * remote and leaves every device equal to it, deletions included.
   */
  lemma TwoRoundsConverge(s: State, first: seq<Step>, second: seq<Step>, n: string)
    requires Runnable(s, first) && OnlySyncs(first) && EveryDeviceSyncs(s, first) && ConflictFree(s, first, n)
    requires Runnable(Run(s, first), second) && OnlySyncs(second) && EveryDeviceSyncs(s, second)
    ensures forall k | 0 <= k <= |second| ::
      Runnable(Run(s, first), second[..k]) && LineOf(Run(Run(s, first), second[..k]), n).remote == LineOf(Run(s, first), n).remote
    ensures var r := LineOf(Run(Run(s, first), second), n);
      forall i: nat | i < |s.devices| :: r.local[i] == r.base[i] == r.remote
  {
    var l, a, b := LineOf(s, n), MovesOf(first, n), MovesOf(second, n);
    var middle := Run(s, first);
    RunIsPlay(s, first, n);
    RunIsPlay(middle, second, n);
    RoundOfMerges(s, first, n);
    assert EveryDeviceSyncs(middle, second);
    RoundOfMerges(middle, second, n);
    assert EveryoneMerges(l, b) by {
      forall i: nat | i < |l.local| ensures Merge3(i) in b { assert i < |LineOf(middle, n).local|; }
    }
    TwoRoundsSettle(l, a, b);
    forall k | 0 <= k <= |second|
      ensures Runnable(middle, second[..k]) && LineOf(Run(middle, second[..k]), n).remote == LineOf(middle, n).remote
    {
      PrefixIsPlay(middle, second, k, n);
    }
  }
}
