/** `AssetLockManager.acquire` and `FileLockLease.release`: many locks taken in one global order. */
module AssetLocks {
  import opened Options
  import opened Ordering
  import opened FiniteSums

  // ---- the calls, one at a time -----------------------------------------------------------

  /** The lock files: which identity is flocked, and by whom. */
  class LockFiles {
    var holder: map<string, nat>

    constructor ()
      ensures holder == map[]
    {
      holder := map[];
    }
  }

  /** The distinct identities of the requested paths, in the order in which they are taken. */
  function Wanted(paths: seq<string>, identity: string -> string): (r: seq<string>)
    ensures StrictlySorted(r)
    ensures forall id :: id in r <==> exists k :: 0 <= k < |paths| && identity(paths[k]) == id
  {
    var ids := set p | p in paths :: identity(p);
    assert forall k | 0 <= k < |paths| :: paths[k] in paths;
    assert forall id :: id in ids <==> exists k :: 0 <= k < |paths| && identity(paths[k]) == id;
    SortedKeys(ids)
  }

  function Held(before: map<string, nat>, ids: seq<string>, owner: nat): (r: map<string, nat>) {
    before + map id | id in ids :: owner
  }

  lemma HeldMore(before: map<string, nat>, ids: seq<string>, owner: nat, id: string)
    ensures Held(before, ids, owner)[id := owner] == Held(before, ids + [id], owner)
  {
    var a, b := Held(before, ids, owner)[id := owner], Held(before, ids + [id], owner);
    assert forall k :: k in ids + [id] <==> k in ids || k == id;
    assert a.Keys == b.Keys;
    assert forall k | k in a :: a[k] == b[k];
  }

  lemma HeldUndone(before: map<string, nat>, ids: seq<string>, owner: nat)
    requires forall id | id in ids :: id !in before
    ensures Held(before, ids, owner) - (set id | id in ids) == before
  {
  }

  class FileLockLease {
    const files: LockFiles
    var handles: seq<string>

    constructor (files: LockFiles, handles: seq<string>)
      ensures this.files == files && this.handles == handles
    {
      this.files, this.handles := files, handles;
    }

    /** Pops the handles from the end; a second call finds none and does nothing. */
    method Release()
      modifies this, files
      ensures handles == []
      ensures files.holder == old(files.holder) - (set id | id in old(handles))
    {
      ghost var all := handles;
      while |handles| > 0
        invariant 0 <= |handles| <= |all| && handles == all[..|handles|]
        invariant files.holder == old(files.holder) - (set id | id in all[|handles|..])
        decreases |handles|
      {
        var n := |handles| - 1;
        var handle := handles[n];
        handles := handles[..n];
        files.holder := files.holder - {handle};
        assert all[n..] == [handle] + all[n + 1..];
      }
      assert all[0..] == all;
    }
  }

  lemma NotTakenYet(ids: seq<string>, i: nat)
    requires StrictlySorted(ids) && i < |ids|
    ensures ids[i] !in ids[..i]
  {
    forall j | 0 <= j < i ensures ids[j] != ids[i] { assert Lt(ids[j], ids[i]); }
  }

  /** `acquire(paths, blocking=False)`: everything asked for, or nothing at all. */
  method AcquireNonBlocking(files: LockFiles, owner: nat, paths: seq<string>, identity: string -> string)
    returns (lease: Option<FileLockLease>)
    modifies files
    ensures lease.Some? <==> forall k | 0 <= k < |paths| :: identity(paths[k]) !in old(files.holder)
    ensures lease.Some? ==> lease.value.files == files && lease.value.handles == Wanted(paths, identity)
    ensures lease.Some? ==> files.holder == Held(old(files.holder), Wanted(paths, identity), owner)
    ensures lease.None? ==> files.holder == old(files.holder)
  {
    var identities := Wanted(paths, identity);
    var handles: seq<string> := [];
    for i := 0 to |identities|
      invariant handles == identities[..i]
      invariant forall id | id in handles :: id !in old(files.holder)
      invariant files.holder == Held(old(files.holder), handles, owner)
    {
      var id := identities[i];
      NotTakenYet(identities, i);
      if id in files.holder {
        var partial := new FileLockLease(files, handles);
        HeldUndone(old(files.holder), handles, owner);
        partial.Release();
        assert id in identities;
        return None;
      }
      HeldMore(old(files.holder), handles, owner, id);
      files.holder := files.holder[id := owner];
      handles := handles + [id];
    }
    assert forall k | 0 <= k < |paths| :: identity(paths[k]) in identities;
    var full := new FileLockLease(files, handles);
    return Some(full);
  }

  // ---- many processes, interleaved ----------------------------------------------------------

  /** A process taking locks, holding all of them, giving them back, or done; `Refused` gives back after a failure. */
  datatype Phase = Taking | Holding | Refused | Returning | Done

  datatype Proc = Proc(wanted: seq<string>, blocking: bool, phase: Phase, taken: nat)

  type Procs = map<nat, Proc>

  datatype Step = Take(p: nat) | Fail(p: nat) | Finish(p: nat) | Pop(p: nat) | Die(p: nat)

  predicate Owns(q: Proc, id: string)
    requires q.taken <= |q.wanted|
  {
    id in q.wanted[..q.taken]
  }

  ghost predicate ProcWellFormed(q: Proc) {
    && q.taken <= |q.wanted| && StrictlySorted(q.wanted)
    && (q.phase == Holding ==> q.taken == |q.wanted|) && (q.phase == Done ==> q.taken == 0)
    && (q.phase == Refused ==> !q.blocking)
  }

  ghost predicate WellFormed(s: Procs) {
    forall p | p in s :: ProcWellFormed(s[p])
  }

  ghost predicate Exclusive(s: Procs)
    requires WellFormed(s)
  {
    forall p, q, id | p in s && q in s && p != q && Owns(s[p], id) :: !Owns(s[q], id)
  }

  ghost predicate Unheld(s: Procs, id: string)
    requires WellFormed(s)
  {
    forall q | q in s :: !Owns(s[q], id)
  }

  ghost predicate Enabled(s: Procs, step: Step)
    requires WellFormed(s)
  {
    step.p in s &&
    var q := s[step.p];
    match step
    case Take(_) => q.phase == Taking && q.taken < |q.wanted| && Unheld(s, q.wanted[q.taken])
    case Fail(_) => q.phase == Taking && !q.blocking && q.taken < |q.wanted| && !Unheld(s, q.wanted[q.taken])
    case Finish(_) => (q.phase == Taking && q.taken == |q.wanted|) || q.phase == Holding || ((q.phase == Returning || q.phase == Refused) && q.taken == 0)
    case Pop(_) => (q.phase == Returning || q.phase == Refused) && q.taken > 0
    case Die(_) => q.phase != Done
  }

  /** `flock`, the failed `flock` of a non-blocking call, the next stage, one popped handle, and sudden death. */
  ghost function Next(s: Procs, step: Step): Procs
    requires WellFormed(s) && Enabled(s, step)
  {
    var q := s[step.p];
    match step
    case Take(p) => s[p := q.(taken := q.taken + 1)]
    case Fail(p) => s[p := q.(phase := Refused)]
    case Finish(p) => s[p := q.(phase := if q.phase == Taking then Holding else if q.phase == Holding then Returning else Done)]
    case Pop(p) => s[p := q.(taken := q.taken - 1)]
    case Die(p) => s[p := q.(taken := 0, phase := Done)]
  }

  /** Every process starts by asking for the identities of its paths, with nothing taken. */
  ghost predicate Init(s: Procs, identity: string -> string) {
    forall p | p in s :: s[p].phase == Taking && s[p].taken == 0 && exists paths :: s[p].wanted == Wanted(paths, identity)
  }

  ghost predicate Good(s: Procs) {
    WellFormed(s) && Exclusive(s)
  }

  lemma InitIsGood(s: Procs, identity: string -> string)
    requires Init(s, identity)
    ensures Good(s)
  {
  }

  lemma TakeOwns(q: Proc, id: string)
    requires q.taken < |q.wanted|
    ensures Owns(q.(taken := q.taken + 1), id) <==> Owns(q, id) || id == q.wanted[q.taken]
  {
    assert q.wanted[..q.taken + 1] == q.wanted[..q.taken] + [q.wanted[q.taken]];
  }

  lemma PopOwns(q: Proc, id: string)
    requires 0 < q.taken <= |q.wanted| && Owns(q.(taken := q.taken - 1), id)
    ensures Owns(q, id)
  {
    assert q.wanted[..q.taken] == q.wanted[..q.taken - 1] + [q.wanted[q.taken - 1]];
  }

  /** One process changes, and gains at most locks that nobody held. */
  lemma OneProcChanges(s: Procs, p: nat, q: Proc)
    requires Good(s) && p in s && ProcWellFormed(q)
    requires forall id :: Owns(q, id) ==> Owns(s[p], id) || Unheld(s, id)
    ensures Good(s[p := q])
  {
    var s' := s[p := q];
    forall r, t, id | r in s' && t in s' && r != t && Owns(s'[r], id) ensures !Owns(s'[t], id) {
      if r == p { assert !Owns(s[t], id); }
    }
  }

  /** No two processes ever hold the same lock. */
  lemma StepIsGood(s: Procs, step: Step)
    requires Good(s) && Enabled(s, step)
    ensures Good(Next(s, step))
  {
    var q, q' := s[step.p], Next(s, step)[step.p];
    forall id | Owns(q', id) ensures Owns(q, id) || Unheld(s, id) {
      if step.Take? { TakeOwns(q, id); }
      if step.Pop? { PopOwns(q, id); }
    }
    OneProcChanges(s, step.p, q');
  }

  // ---- progress -------------------------------------------------------------------------------

  /** Stuck on a held lock inside a blocking call. */
  ghost predicate Blocked(s: Procs, p: nat)
    requires WellFormed(s)
  {
    p in s && s[p].blocking && s[p].phase == Taking && s[p].taken < |s[p].wanted| && !Unheld(s, s[p].wanted[s[p].taken])
  }

  ghost predicate CanMove(s: Procs, p: nat)
    requires WellFormed(s)
  {
    Enabled(s, Take(p)) || Enabled(s, Fail(p)) || Enabled(s, Finish(p)) || Enabled(s, Pop(p))
  }

  lemma UnfinishedMovesOrBlocks(s: Procs, p: nat)
    requires WellFormed(s) && p in s && s[p].phase != Done
    ensures CanMove(s, p) || Blocked(s, p)
  {
  }

  /** The lock a blocked process waits for. */
  function Awaited(s: Procs, p: nat): string
    requires p in s && s[p].taken < |s[p].wanted|
  {
    s[p].wanted[s[p].taken]
  }

  /** The process waiting for the greatest lock among a set of waiting processes. */
  lemma {:induction false} GreatestWaiter(s: Procs, waiting: set<nat>) returns (p: nat)
    requires WellFormed(s) && waiting != {} && forall q | q in waiting :: Blocked(s, q)
    ensures p in waiting && Blocked(s, p)
    ensures forall q | q in waiting :: Blocked(s, q) && Le(Awaited(s, q), Awaited(s, p))
  {
    p :| p in waiting;
    LeTotal(Awaited(s, p), Awaited(s, p));
    if waiting != {p} {
      assert waiting - {p} != {} by { assert exists q :: q in waiting && q != p; }
      var best := GreatestWaiter(s, waiting - {p});
      var a, b := Awaited(s, p), Awaited(s, best);
      LeTotal(a, b);
      forall q | q in waiting ensures Le(Awaited(s, q), if Le(a, b) then b else a) {
        if q != p && !Le(a, b) { LeTransitive(Awaited(s, q), b, a); }
      }
      p := if Le(a, b) then best else p;
    }
  }

  /** A process that holds a lock another waits for, and is itself blocked, waits for a greater one. */
  lemma HolderWaitsHigher(s: Procs, p: nat, h: nat)
    requires Good(s) && Blocked(s, p) && Blocked(s, h) && Owns(s[h], Awaited(s, p))
    ensures Lt(Awaited(s, p), Awaited(s, h))
  {
    var w := s[h].wanted;
    var k :| 0 <= k < s[h].taken && w[k] == s[p].wanted[s[p].taken];
    assert Lt(w[k], w[s[h].taken]);
  }

  /** There is no deadlock: while any process is unfinished, some process can move on without anyone dying. */
  lemma NoDeadlock(s: Procs, p: nat)
    requires Good(s) && p in s && s[p].phase != Done
    ensures exists q :: q in s && CanMove(s, q)
  {
    if !exists q :: q in s && CanMove(s, q) {
      var waiting := set q | q in s && s[q].phase != Done;
      forall q | q in waiting ensures Blocked(s, q) { UnfinishedMovesOrBlocks(s, q); }
      assert p in waiting;
      var top := GreatestWaiter(s, waiting);
      var id := Awaited(s, top);
      var h :| h in s && Owns(s[h], id);
      assert h in waiting;
      HolderWaitsHigher(s, top, h);
      LeAntisymmetric(id, Awaited(s, h));
    }
  }

  /** Calls and pops a process still has ahead of it. */
  function Remaining(q: Proc): int {
    match q.phase
    case Taking => 2 * |q.wanted| + 3 - q.taken
    case Holding => |q.wanted| + 2
    case Returning => q.taken + 1
    case Refused => q.taken + 1
    case Done => 0
  }

  ghost function Work(s: Procs): int {
    Total(s, Remaining)
  }

  /** Every step uses up some of a fixed amount of work, so no run goes on for ever. */
  lemma StepUsesWork(s: Procs, step: Step)
    requires Good(s) && Enabled(s, step)
    ensures 0 <= Work(Next(s, step)) < Work(s)
  {
    StepIsGood(s, step);
    TotalUpdate(s, step.p, Next(s, step)[step.p], Remaining);
    WorkIsNatural(Next(s, step));
  }

  lemma WorkIsNatural(s: Procs)
    requires Good(s)
    ensures 0 <= Work(s)
  {
    var none: Procs := map[];
    TotalAtMost(none, Remaining, s, Remaining);
  }

  ghost predicate Runs(s: Procs, steps: seq<Step>)
    requires Good(s)
    decreases |steps|, 0
  {
    steps == [] || (Runs(s, steps[..|steps| - 1]) && Enabled(Run(s, steps[..|steps| - 1]), steps[|steps| - 1]))
  }

  ghost function Run(s: Procs, steps: seq<Step>): (r: Procs)
    requires Good(s) && Runs(s, steps)
    ensures Good(r)
    decreases |steps|, 1
  {
    if steps == [] then s
    else
      StepIsGood(Run(s, steps[..|steps| - 1]), steps[|steps| - 1]);
      Next(Run(s, steps[..|steps| - 1]), steps[|steps| - 1])
  }

  lemma {:induction false} RunsAreShort(s: Procs, steps: seq<Step>)
    requires Good(s) && Runs(s, steps)
    ensures |steps| + Work(Run(s, steps)) <= Work(s)
    decreases |steps|
  {
    if steps != [] {
      var before := steps[..|steps| - 1];
      RunsAreShort(s, before);
      StepUsesWork(Run(s, before), steps[|steps| - 1]);
    }
  }

  /**
   * Whatever the interleaving and whoever dies: a run has at most as many steps as there is work, no lock is ever
   * held twice, and as long as some process is unfinished the run can go on by itself.
   */
  lemma EveryAcquireEnds(s: Procs, identity: string -> string, steps: seq<Step>)
    requires Init(s, identity) && Runs(s, steps)
    ensures |steps| <= Work(s)
    ensures Exclusive(Run(s, steps))
    ensures (exists p :: p in Run(s, steps) && Run(s, steps)[p].phase != Done) ==> exists q :: q in Run(s, steps) && CanMove(Run(s, steps), q)
    ensures forall p | p in Run(s, steps) ::
      && (Run(s, steps)[p].phase == Holding ==> Run(s, steps)[p].taken == |Run(s, steps)[p].wanted|)
      && (Run(s, steps)[p].phase == Done ==> Run(s, steps)[p].taken == 0)
  {
    InitIsGood(s, identity);
    RunsAreShort(s, steps);
    var r := Run(s, steps);
    WorkIsNatural(r);
    if p :| p in r && r[p].phase != Done { NoDeadlock(r, p); }
  }
}
