/**
 * The admission protocol of `cache_coordination.py` as interleaved steps of many processes: liveness locks,
 * admission lock, durable rows, lagging row updates, staged writes, release, crash and stale reclamation.
 */
module CacheProtocol {
  import opened Options
  import opened Reservations
  import opened FiniteSums

  type Id = nat

  /** `max_size_bytes` and `min_free_bytes`. */
  datatype Config = Config(maxSize: int, minFree: int)

  /** Where the process that owns a liveness lock stands. `Persisting` is inside `_persist_reserved`. */
  datatype Phase = Requesting | Active | Persisting(protecting: nat) | Releasing

  /**
   * One lock owner. `toWrite`, `unconsumed` and `protected` are bookkeeping of the bytes it may still write,
   * has written but not yet reported, and has reserved again before removing them.
   */
  datatype Owner = Owner(phase: Phase, requested: nat, reserved: int, persisted: int, toWrite: nat, unconsumed: nat, protected: nat)

  /**
   * Who holds the admission lock and how far its `admit` call is. `_fits` reads the final bytes (`Counted`), then the
   * staged ones (`Scanned`) and sums the rows last (`Summed`); `second` says which of the two evaluations it is.
   * `atScan` and `missed` are bookkeeping of what the row sum can no longer see.
   */
  datatype Admission =
    | Free
    | Probing(holder: Id, todo: set<Id>, dead: set<Id>, kept: set<Id>)
    | Ready(holder: Id, kept: set<Id>, second: bool)
    | Counted(holder: Id, second: bool, counted: int)
    | Scanned(holder: Id, second: bool, seen: int, atScan: map<Id, nat>, missed: int)
    | Summed(holder: Id, second: bool, seen: int, active: int, missed: int)
    | Fitted(holder: Id, missed: int)

  /**
   * `overshoot` records the largest undercount an accepted admission made; `covered` says that the quota is
   * meant to hold: it did at the start, or an admission has been accepted since.
   */
  datatype State = State(
    owners: map<Id, Owner>, locks: set<Id>, rows: map<Id, nat>, used: set<Id>, admission: Admission,
    final: nat, staged: int, free: int, overshoot: nat, covered: bool)

  datatype Step =
    | TakeLock(id: Id, bytes: nat)
    | Enter(id: Id)
    | Probe(row: Id)
    | DeleteStale
    | ReadFinal
    | ReadStaging
    | ReadRows
    | FirstVerdict(evicted: nat)
    | Accept
    | Refuse
    | InsertRow
    | WriteChunk(id: Id, bytes: nat)
    | ReportWritten(id: Id, bytes: nat)
    | AskRemoval(id: Id, bytes: nat)
    | Persist(id: Id)
    | RemoveStaged(id: Id, bytes: nat)
    | Finalize(id: Id, bytes: nat)
    | DeleteRow(id: Id)
    | Unlock(id: Id)
    | Crash(id: Id)

  // ---- quantities -----------------------------------------------------------------------

  function ToWrite(o: Owner): int { o.toWrite }

  /** What the durable row of an owner has to cover. */
  function Owed(o: Owner): int { o.toWrite + o.unconsumed + o.protected }

  function Bytes(n: nat): int { n }

  /** Cache bytes present, plus all that live owners may still write. */
  ghost function Committed(s: State): int {
    s.final + s.staged + Total(s.owners, ToWrite)
  }

  /** Free bytes left once live owners have written all they may. */
  ghost function Headroom(s: State): int {
    s.free - Total(s.owners, ToWrite)
  }

  ghost function ActiveReserved(s: State): int {
    Total(s.rows, Bytes)
  }

  function Requested(s: State): nat
    requires !s.admission.Free? && s.admission.holder in s.owners
  {
    s.owners[s.admission.holder].requested
  }

  /** The comparison of `_fits` over the values read. */
  predicate Fits(c: Config, seen: int, active: int, free: int, requested: nat) {
    seen + active + requested <= c.maxSize && free - active - requested >= c.minFree
  }

  // ---- the steps ------------------------------------------------------------------------

  ghost predicate Enabled(c: Config, s: State, step: Step) {
    match step
    case TakeLock(id, _) => id !in s.used
    case Enter(id) => id in s.owners && s.owners[id].phase == Requesting && s.admission.Free?
    case Probe(row) => s.admission.Probing? && row in s.admission.todo
    case DeleteStale => s.admission.Probing? && s.admission.todo == {}
    case ReadFinal => s.admission.Ready?
    case ReadStaging => s.admission.Counted?
    case ReadRows => s.admission.Scanned?
    case FirstVerdict(e) =>
      && s.admission.Summed? && !s.admission.second && s.admission.holder in s.owners && e <= s.final
      && (e > 0 ==> !Fits(c, s.admission.seen, s.admission.active, s.free, Requested(s)))
    case Accept =>
      && s.admission.Summed? && s.admission.second && s.admission.holder in s.owners
      && Fits(c, s.admission.seen, s.admission.active, s.free, Requested(s))
    case Refuse =>
      && s.admission.Summed? && s.admission.second && s.admission.holder in s.owners
      && !Fits(c, s.admission.seen, s.admission.active, s.free, Requested(s))
    case InsertRow => s.admission.Fitted? && s.admission.holder in s.owners
    case WriteChunk(id, n) => id in s.owners && s.owners[id].phase == Active && n <= s.owners[id].toWrite
    case ReportWritten(id, n) => id in s.owners && s.owners[id].phase == Active && n <= s.owners[id].unconsumed
    case AskRemoval(id, n) => id in s.owners && s.owners[id].phase == Active && n > 0
    case Persist(id) => id in s.owners && s.owners[id].phase.Persisting? && s.admission.Free?
    case RemoveStaged(id, n) => id in s.owners && s.owners[id].phase == Active && n <= s.owners[id].protected
    case Finalize(id, n) => id in s.owners && s.owners[id].phase == Active && s.admission.Free? && n <= s.staged
    case DeleteRow(id) => id in s.owners && (s.owners[id].phase == Active || s.owners[id].phase.Persisting?)
    case Unlock(id) => id in s.owners && s.owners[id].phase == Releasing
    case Crash(id) => id in s.owners
  }

  /** The admission lock is dropped by the kernel if its holder dies. */
  ghost function AdmissionAfterDeath(a: Admission, id: Id): Admission {
    if !a.Free? && a.holder == id then Free else a
  }

  /** A deleted row is lost to a row sum that is still to come; the staging scan is already past. */
  ghost function AdmissionAfterRelease(a: Admission, id: Id, o: Owner): Admission {
    if a.Scanned? && id in a.atScan then a.(atScan := a.atScan - {id}, missed := a.missed + a.atScan[id] - o.toWrite) else a
  }

  ghost function WritableAtScan(s: State): (r: map<Id, nat>) {
    map id | id in s.owners && id in s.rows :: s.owners[id].toWrite
  }

  ghost function Next(c: Config, s: State, step: Step): State
    requires Enabled(c, s, step)
  {
    match step
    case TakeLock(id, n) =>
      s.(owners := s.owners[id := Owner(Requesting, n, 0, 0, 0, 0, 0)], locks := s.locks + {id}, used := s.used + {id})
    case Enter(id) => s.(admission := Probing(id, s.rows.Keys, {}, {}))
    case Probe(row) =>
      var a := s.admission;
      if row in s.locks then s.(admission := a.(todo := a.todo - {row}, kept := a.kept + {row}))
      else s.(admission := a.(todo := a.todo - {row}, dead := a.dead + {row}))
    case DeleteStale => s.(rows := s.rows - s.admission.dead, admission := Ready(s.admission.holder, s.admission.kept, false))
    case ReadFinal => s.(admission := Counted(s.admission.holder, s.admission.second, s.final))
    case ReadStaging => s.(admission := Scanned(s.admission.holder, s.admission.second, s.admission.counted + s.staged, WritableAtScan(s), 0))
    case ReadRows => s.(admission := Summed(s.admission.holder, s.admission.second, s.admission.seen, ActiveReserved(s), s.admission.missed))
    case FirstVerdict(e) => s.(final := s.final - e, free := s.free + e, admission := Ready(s.admission.holder, {}, true))
    case Accept => s.(admission := Fitted(s.admission.holder, s.admission.missed))
    case Refuse => s.(owners := s.owners - {s.admission.holder}, locks := s.locks - {s.admission.holder}, admission := Free)
    case InsertRow =>
      var id, n := s.admission.holder, Requested(s);
      s.(rows := s.rows[id := n], owners := s.owners[id := Owner(Active, n, n, n, n, 0, 0)], admission := Free,
         overshoot := Max(s.overshoot, s.admission.missed), covered := true)
    case WriteChunk(id, n) =>
      var o := s.owners[id];
      s.(owners := s.owners[id := o.(toWrite := o.toWrite - n, unconsumed := o.unconsumed + n)], staged := s.staged + n, free := s.free - n)
    case ReportWritten(id, n) =>
      var o := s.owners[id];
      var shrunk := Max(0, o.reserved - n);
      s.(owners := s.owners[id := o.(reserved := shrunk, unconsumed := o.unconsumed - n,
                                     phase := if MustPersist(shrunk, o.persisted) then Persisting(0) else Active)])
    case AskRemoval(id, n) => var o := s.owners[id]; s.(owners := s.owners[id := o.(reserved := o.reserved + n, phase := Persisting(n))])
    case Persist(id) =>
      var o := s.owners[id];
      var row := if o.reserved < 0 then 0 else o.reserved;
      s.(rows := if id in s.rows then s.rows[id := row] else s.rows,
         owners := s.owners[id := o.(persisted := o.reserved, protected := o.protected + o.phase.protecting, phase := Active)])
    case RemoveStaged(id, n) =>
      var o := s.owners[id];
      s.(owners := s.owners[id := o.(protected := o.protected - n, toWrite := o.toWrite + n)], staged := s.staged - n, free := s.free + n)
    case Finalize(id, n) => s.(staged := s.staged - n, final := s.final + n)
    case DeleteRow(id) =>
      var o := s.owners[id];
      s.(rows := s.rows - {id}, owners := s.owners[id := o.(phase := Releasing, toWrite := 0, unconsumed := 0, protected := 0)],
         admission := AdmissionAfterRelease(s.admission, id, o))
    case Unlock(id) => s.(owners := s.owners - {id}, locks := s.locks - {id})
    case Crash(id) => s.(owners := s.owners - {id}, locks := s.locks - {id}, admission := AdmissionAfterDeath(s.admission, id))
  }

  ghost predicate Init(c: Config, s: State) {
    && s.owners == map[] && s.locks == {} && s.admission == Free && s.overshoot == 0
    && s.rows.Keys <= s.used
    && (s.covered ==> s.final + s.staged <= c.maxSize && s.free >= c.minFree)
  }

  ghost predicate Runs(c: Config, s: State, steps: seq<Step>)
    decreases |steps|, 0
  {
    steps == [] || (Runs(c, s, steps[..|steps| - 1]) && Enabled(c, Run(c, s, steps[..|steps| - 1]), steps[|steps| - 1]))
  }

  /** The state after a run; runs grow at the end. */
  ghost function Run(c: Config, s: State, steps: seq<Step>): State
    requires Runs(c, s, steps)
    decreases |steps|, 1
  {
    if steps == [] then s else Next(c, Run(c, s, steps[..|steps| - 1]), steps[|steps| - 1])
  }

  /** Some run of the protocol leads from one state to the other. */
  ghost predicate Reaches(c: Config, s: State, t: State) {
    exists steps :: Runs(c, s, steps) && Run(c, s, steps) == t
  }

  lemma ReachesStart(c: Config, s: State)
    ensures Reaches(c, s, s)
  {
    assert Runs(c, s, []) && Run(c, s, []) == s;
  }

  lemma Extend(c: Config, s: State, t: State, step: Step, t': State)
    requires Reaches(c, s, t) && Enabled(c, t, step) && t' == Next(c, t, step)
    ensures Reaches(c, s, t')
  {
    var steps :| Runs(c, s, steps) && Run(c, s, steps) == t;
    assert (steps + [step])[..|steps|] == steps;
    assert Runs(c, s, steps + [step]) && Run(c, s, steps + [step]) == t';
  }

  // ---- the lease steps refine the lease -----------------------------------------------------

  /** A lock owner and its row, as the lease they are. */
  ghost function LeaseOf(s: State, id: Id): Lease
    requires id in s.owners
  {
    Lease(s.owners[id].reserved, s.owners[id].persisted, if id in s.rows then Some(s.rows[id]) else None)
  }

  /** Reporting written bytes, with the row update it may call for, is `consume_growth`. */
  lemma ReportingIsConsuming(c: Config, s: State, id: Id, n: nat)
    requires Enabled(c, s, ReportWritten(id, n)) && s.admission.Free?
    ensures var t := Next(c, s, ReportWritten(id, n));
      if t.owners[id].phase == Active then LeaseOf(t, id) == Do(LeaseOf(s, id), Consume(n))
      else Enabled(c, t, Persist(id)) && LeaseOf(Next(c, t, Persist(id)), id) == Do(LeaseOf(s, id), Consume(n))
  {
  }

  /** Asking to remove staged bytes, with the row update that must come first, is `protect_removal`. */
  lemma AskingIsProtecting(c: Config, s: State, id: Id, n: nat)
    requires Enabled(c, s, AskRemoval(id, n)) && s.admission.Free? && s.owners[id].reserved >= 0
    ensures var t := Next(c, s, AskRemoval(id, n));
      && Enabled(c, t, Persist(id))
      && LeaseOf(Next(c, t, Persist(id)), id) == Do(LeaseOf(s, id), Protect(n))
      && Next(c, t, Persist(id)).owners[id].protected == s.owners[id].protected + n
  {
  }

  // ---- what every step keeps ------------------------------------------------------------

  /** Locks are held exactly by the living, ids are never reused, and a living lease has its row. */
  ghost predicate Locked(s: State) {
    && s.locks == s.owners.Keys
    && s.owners.Keys <= s.used && s.rows.Keys <= s.used
    && (forall id | id in s.owners :: (s.owners[id].phase == Active || s.owners[id].phase.Persisting?) <==> id in s.rows)
  }

  /** The admission holder is a living requester, and a row found unlocked has no living owner. */
  ghost predicate Admitting(s: State) {
    && (!s.admission.Free? ==> s.admission.holder in s.owners && s.owners[s.admission.holder].phase == Requesting)
    && (s.admission.Probing? ==>
          && s.admission.dead !! s.owners.Keys && s.admission.dead + s.admission.todo <= s.used
          && s.rows.Keys <= s.admission.todo + s.admission.dead + s.admission.kept)
    && (s.admission.Ready? && !s.admission.second ==> s.rows.Keys <= s.admission.kept)
  }

  /** One lease: the promise is what is owed, and the durable row covers what is owed. */
  ghost predicate Promised(s: State, id: Id)
    requires id in s.owners
  {
    var o := s.owners[id];
    match o.phase
    case Requesting => Owed(o) == 0
    case Releasing => Owed(o) == 0
    case Active =>
      id in s.rows && s.rows[id] == o.persisted && o.reserved == Owed(o) && Conservative(Lease(o.reserved, o.persisted, Some(s.rows[id])))
    case Persisting(q) =>
      id in s.rows && s.rows[id] == o.persisted && o.reserved == Owed(o) + q && Owed(o) <= o.persisted
  }

  ghost predicate AllPromised(s: State) {
    forall id | id in s.owners :: Promised(s, id)
  }

  lemma LockedDeparture(c: Config, s: State, step: Step)
    requires Locked(s) && Admitting(s) && Enabled(c, s, step)
    requires step.Crash? || step.Unlock? || step.Refuse? || step.DeleteStale? || step.DeleteRow?
    ensures Locked(Next(c, s, step))
  {
  }

  lemma LockedStep(c: Config, s: State, step: Step)
    requires Locked(s) && Admitting(s) && Enabled(c, s, step)
    ensures Locked(Next(c, s, step))
  {
    if step.Crash? || step.Unlock? || step.Refuse? || step.DeleteStale? || step.DeleteRow? {
      LockedDeparture(c, s, step);
    }
  }

  lemma AdmittingOwnStep(c: Config, s: State, step: Step)
    requires Locked(s) && Admitting(s) && Enabled(c, s, step)
    requires step.Enter? || step.Probe? || step.DeleteStale? || step.ReadFinal? || step.ReadStaging? || step.ReadRows? || step.FirstVerdict?
    ensures Admitting(Next(c, s, step))
  {
  }

  lemma AdmittingEnd(c: Config, s: State, step: Step)
    requires Locked(s) && Admitting(s) && Enabled(c, s, step)
    requires step.Accept? || step.Refuse? || step.InsertRow? || step.Crash?
    ensures Admitting(Next(c, s, step))
  {
  }

  lemma AdmittingStep(c: Config, s: State, step: Step)
    requires Locked(s) && Admitting(s) && Enabled(c, s, step)
    ensures Admitting(Next(c, s, step))
  {
    if step.Enter? || step.Probe? || step.DeleteStale? || step.ReadFinal? || step.ReadStaging? || step.ReadRows? || step.FirstVerdict? {
      AdmittingOwnStep(c, s, step);
    } else if step.Accept? || step.Refuse? || step.InsertRow? || step.Crash? {
      AdmittingEnd(c, s, step);
    }
  }

  /** A lease keeps its promise if neither it nor its row changes. */
  lemma PromisedUntouched(s: State, s': State, id: Id)
    requires id in s.owners && id in s'.owners && s'.owners[id] == s.owners[id]
    requires id in s.rows ==> id in s'.rows && s'.rows[id] == s.rows[id]
    requires Promised(s, id)
    ensures Promised(s', id)
  {
  }

  /** Steps of one active lease that leave the rows alone. */
  lemma PromisedVolatile(c: Config, s: State, step: Step)
    requires Locked(s) && AllPromised(s) && Enabled(c, s, step)
    requires step.WriteChunk? || step.ReportWritten? || step.AskRemoval? || step.RemoveStaged?
    ensures AllPromised(Next(c, s, step))
  {
    var s' := Next(c, s, step);
    forall id | id in s'.owners ensures Promised(s', id) {
      assert Promised(s, id);
      if id != step.id { PromisedUntouched(s, s', id); }
    }
  }

  /** Steps that write, add or delete one row. */
  lemma PromisedDurable(c: Config, s: State, step: Step)
    requires Locked(s) && Admitting(s) && AllPromised(s) && Enabled(c, s, step)
    requires step.Persist? || step.DeleteRow? || step.InsertRow?
    ensures AllPromised(Next(c, s, step))
  {
    var s' := Next(c, s, step);
    var actor := if step.InsertRow? then s.admission.holder else step.id;
    forall id | id in s'.owners ensures Promised(s', id) {
      assert Promised(s, id);
      if id != actor { PromisedUntouched(s, s', id); }
    }
  }

  lemma PromisedStep(c: Config, s: State, step: Step)
    requires Locked(s) && Admitting(s) && AllPromised(s) && Enabled(c, s, step)
    ensures AllPromised(Next(c, s, step))
  {
    if step.WriteChunk? || step.ReportWritten? || step.AskRemoval? || step.RemoveStaged? {
      PromisedVolatile(c, s, step);
    } else if step.Persist? || step.DeleteRow? || step.InsertRow? {
      PromisedDurable(c, s, step);
    } else {
      var s' := Next(c, s, step);
      forall id | id in s'.owners ensures Promised(s', id) {
        if id in s.owners && s'.owners[id] == s.owners[id] {
          assert Promised(s, id);
          PromisedUntouched(s, s', id);
        }
      }
    }
  }

  // ---- the quota ------------------------------------------------------------------------

  /** The bound while it is in force, and what a pending admission still knows. */
  ghost predicate Bounded(c: Config, s: State) {
    && (s.covered ==> Committed(s) <= c.maxSize + s.overshoot && Headroom(s) >= c.minFree)
    && match s.admission
       case Counted(_, _, counted) => counted == s.final
       case Scanned(_, _, seen, atScan, missed) =>
         && Committed(s) <= seen + Total(atScan, Bytes) + missed
         && forall id | id in atScan :: id in s.rows && atScan[id] <= s.rows[id]
       case Summed(_, _, seen, active, missed) =>
         Committed(s) <= seen + active + missed && Total(s.owners, Owed) <= active
       case Fitted(holder, missed) =>
         && holder in s.owners
         && Committed(s) + Requested(s) <= c.maxSize + missed && Headroom(s) - Requested(s) >= c.minFree
       case _ => true
  }

  /** How the totals over the owners move when one owner changes, appears or goes. */
  lemma TotalsAfterChange(s: State, id: Id, o: Owner)
    requires id in s.owners
    ensures Total(s.owners[id := o], ToWrite) == Total(s.owners, ToWrite) - s.owners[id].toWrite + o.toWrite
    ensures Total(s.owners[id := o], Owed) == Total(s.owners, Owed) - Owed(s.owners[id]) + Owed(o)
  {
    TotalUpdate(s.owners, id, o, ToWrite);
    TotalUpdate(s.owners, id, o, Owed);
  }

  lemma TotalsAfterRemoval(s: State, id: Id)
    requires id in s.owners
    ensures Total(s.owners - {id}, ToWrite) == Total(s.owners, ToWrite) - s.owners[id].toWrite
    ensures Total(s.owners - {id}, Owed) == Total(s.owners, Owed) - Owed(s.owners[id])
  {
    TotalRemove(s.owners, id, ToWrite);
    TotalRemove(s.owners, id, Owed);
  }

  lemma TotalsAfterArrival(s: State, id: Id, o: Owner)
    requires id !in s.owners
    ensures Total(s.owners[id := o], ToWrite) == Total(s.owners, ToWrite) + o.toWrite
    ensures Total(s.owners[id := o], Owed) == Total(s.owners, Owed) + Owed(o)
  {
    TotalAdd(s.owners, id, o, ToWrite);
    TotalAdd(s.owners, id, o, Owed);
  }

  /** The owner whose entry a step changes, if any. */
  function Actor(s: State, step: Step): Id {
    match step
    case TakeLock(id, _) => id
    case Refuse => if s.admission.Free? then 0 else s.admission.holder
    case InsertRow => if s.admission.Free? then 0 else s.admission.holder
    case WriteChunk(id, _) => id
    case ReportWritten(id, _) => id
    case AskRemoval(id, _) => id
    case Persist(id) => id
    case RemoveStaged(id, _) => id
    case DeleteRow(id) => id
    case Unlock(id) => id
    case Crash(id) => id
    case _ => 0
  }

  lemma TotalsOfStep(c: Config, s: State, step: Step)
    requires Enabled(c, s, step)
    ensures var s', id := Next(c, s, step), Actor(s, step);
      && Total(s'.owners, ToWrite) == Total(s.owners, ToWrite)
           - (if id in s.owners then s.owners[id].toWrite else 0) + (if id in s'.owners then s'.owners[id].toWrite else 0)
      && Total(s'.owners, Owed) == Total(s.owners, Owed)
           - (if id in s.owners then Owed(s.owners[id]) else 0) + (if id in s'.owners then Owed(s'.owners[id]) else 0)
  {
    var s', id := Next(c, s, step), Actor(s, step);
    if id in s'.owners && id in s.owners {
      TotalsAfterChange(s, id, s'.owners[id]);
      assert s'.owners == s.owners[id := s'.owners[id]];
    } else if id in s.owners {
      TotalsAfterRemoval(s, id);
      assert s'.owners == s.owners - {id};
    } else if id in s'.owners {
      TotalsAfterArrival(s, id, s'.owners[id]);
      assert s'.owners == s.owners[id := s'.owners[id]];
    } else {
      assert s'.owners == s.owners;
    }
  }

  /** Bytes move between the final cache, staging, free space and what the acting owner may still write. */
  lemma BytesOfStep(c: Config, s: State, step: Step)
    requires Admitting(s) && Enabled(c, s, step) && !step.InsertRow?
    ensures var s', id := Next(c, s, step), Actor(s, step);
      var w := if id in s.owners then s.owners[id].toWrite else 0;
      var w' := if id in s'.owners then s'.owners[id].toWrite else 0;
      && s'.final + s'.staged + w' <= s.final + s.staged + w
      && s'.free - w' >= s.free - w
  {
  }

  /** Committed bytes never grow and headroom never shrinks, except when a row is inserted. */
  lemma CommittedStep(c: Config, s: State, step: Step)
    requires Locked(s) && Admitting(s) && AllPromised(s) && Enabled(c, s, step)
    ensures var s' := Next(c, s, step);
      && (!step.InsertRow? ==> Committed(s') <= Committed(s) && Headroom(s') >= Headroom(s))
      && (step.InsertRow? ==> Committed(s') == Committed(s) + Requested(s) && Headroom(s') == Headroom(s) - Requested(s))
  {
    TotalsOfStep(c, s, step);
    if step.InsertRow? { assert Promised(s, s.admission.holder); } else { BytesOfStep(c, s, step); }
  }

  /** What is owed never grows while rows cannot be written. */
  lemma OwedStep(c: Config, s: State, step: Step)
    requires Locked(s) && Admitting(s) && AllPromised(s) && Enabled(c, s, step)
    requires !step.InsertRow? && !step.Persist?
    ensures Total(Next(c, s, step).owners, Owed) <= Total(s.owners, Owed)
  {
    TotalsOfStep(c, s, step);
    var id := Actor(s, step);
    if id in s.owners { assert Promised(s, id); }
  }

  lemma ScanBounds(c: Config, s: State)
    requires Locked(s) && Admitting(s) && AllPromised(s) && Bounded(c, s) && Enabled(c, s, ReadStaging)
    ensures Bounded(c, Next(c, s, ReadStaging))
  {
    var atScan := WritableAtScan(s);
    forall id | id in s.owners ensures ToWrite(s.owners[id]) <= if id in atScan then Bytes(atScan[id]) else 0 {
      assert Promised(s, id);
    }
    TotalAtMost(s.owners, ToWrite, atScan, Bytes);
    forall id | id in atScan ensures atScan[id] <= s.rows[id] {
      assert Promised(s, id);
    }
  }

  lemma SumBounds(c: Config, s: State)
    requires Locked(s) && Admitting(s) && AllPromised(s) && Bounded(c, s) && Enabled(c, s, ReadRows)
    ensures Bounded(c, Next(c, s, ReadRows))
  {
    TotalAtMost(s.admission.atScan, Bytes, s.rows, Bytes);
    forall id | id in s.owners ensures Owed(s.owners[id]) <= if id in s.rows then Bytes(s.rows[id]) else 0 {
      assert Promised(s, id);
    }
    TotalAtMost(s.owners, Owed, s.rows, Bytes);
  }

  lemma WritableWithinOwed(s: State)
    ensures Total(s.owners, ToWrite) <= Total(s.owners, Owed)
  {
    TotalAtMost(s.owners, ToWrite, s.owners, Owed);
  }

  lemma VerdictBounds(c: Config, s: State, step: Step)
    requires Locked(s) && Admitting(s) && AllPromised(s) && Bounded(c, s) && Enabled(c, s, step)
    requires step.FirstVerdict? || step.Accept? || step.Refuse? || step.InsertRow?
    ensures Bounded(c, Next(c, s, step))
  {
    CommittedStep(c, s, step);
    WritableWithinOwed(s);
  }

  lemma ReleaseBounds(c: Config, s: State, id: Id)
    requires Locked(s) && Admitting(s) && AllPromised(s) && Bounded(c, s) && Enabled(c, s, DeleteRow(id))
    ensures Bounded(c, Next(c, s, DeleteRow(id)))
  {
    TotalsOfStep(c, s, DeleteRow(id));
    OwedStep(c, s, DeleteRow(id));
    if s.admission.Scanned? && id in s.admission.atScan {
      TotalRemove(s.admission.atScan, id, Bytes);
    }
  }

  /** The steps that neither take part in an evaluation of `_fits` nor touch a row that one may sum. */
  lemma OtherBounds(c: Config, s: State, step: Step)
    requires Locked(s) && Admitting(s) && AllPromised(s) && Bounded(c, s) && Enabled(c, s, step)
    requires !step.ReadFinal? && !step.ReadStaging? && !step.ReadRows? && !step.FirstVerdict? && !step.Accept? && !step.Refuse? && !step.InsertRow?
    requires !step.DeleteRow? && !step.Persist?
    ensures Bounded(c, Next(c, s, step))
  {
    CommittedStep(c, s, step);
    OwedStep(c, s, step);
    OthersLeaveEvaluation(c, s, step);
  }

  lemma OthersLeaveEvaluation(c: Config, s: State, step: Step)
    requires Locked(s) && Admitting(s) && Enabled(c, s, step)
    requires !step.ReadFinal? && !step.ReadStaging? && !step.ReadRows? && !step.FirstVerdict? && !step.Accept? && !step.Refuse? && !step.InsertRow?
    requires !step.DeleteRow? && !step.Persist?
    ensures var s' := Next(c, s, step);
      && s'.covered == s.covered && s'.overshoot == s.overshoot
      && (s'.admission == s.admission || s'.admission.Free? || s'.admission.Probing? || s'.admission.Ready?)
      && (s'.admission.Counted? ==> s'.final == s.final)
      && (s'.admission.Scanned? ==> s'.rows == s.rows)
      && (s'.admission.Fitted? ==> s'.admission.holder in s'.owners && s.admission.holder in s.owners && Requested(s') == Requested(s))
  {
  }

  lemma BoundedStep(c: Config, s: State, step: Step)
    requires Locked(s) && Admitting(s) && AllPromised(s) && Bounded(c, s) && Enabled(c, s, step)
    ensures Bounded(c, Next(c, s, step))
  {
    match step
    case ReadFinal => CommittedStep(c, s, step);
    case ReadStaging => ScanBounds(c, s);
    case ReadRows => SumBounds(c, s);
    case FirstVerdict(_) => VerdictBounds(c, s, step);
    case Accept => VerdictBounds(c, s, step);
    case Refuse => VerdictBounds(c, s, step);
    case InsertRow => VerdictBounds(c, s, step);
    case DeleteRow(id) => ReleaseBounds(c, s, id);
    case Persist(id) => CommittedStep(c, s, step);
    case _ => OtherBounds(c, s, step);
  }

  ghost predicate Inv(c: Config, s: State) {
    Locked(s) && Admitting(s) && AllPromised(s) && Bounded(c, s)
  }

  lemma {:induction false} InvHolds(c: Config, s: State, steps: seq<Step>)
    requires Init(c, s) && Runs(c, s, steps)
    ensures Inv(c, Run(c, s, steps))
    decreases |steps|
  {
    if steps != [] {
      var before, step := steps[..|steps| - 1], steps[|steps| - 1];
      InvHolds(c, s, before);
      var t := Run(c, s, before);
      LockedStep(c, t, step);
      AdmittingStep(c, t, step);
      PromisedStep(c, t, step);
      BoundedStep(c, t, step);
    }
  }

  /** Every interleaving, crashes included: the quota is exceeded by no more than an accepted admission failed to see. */
  lemma QuotaUpToOvershoot(c: Config, s: State, steps: seq<Step>)
    requires Init(c, s) && Runs(c, s, steps)
    ensures var r := Run(c, s, steps);
      r.covered ==> Committed(r) <= c.maxSize + r.overshoot && Headroom(r) >= c.minFree
  {
    InvHolds(c, s, steps);
  }

  /**
   * A release between the staging read and the row sum of an evaluation of `_fits` hides nothing, unless the lease has
   * written bytes since that read and so may write less than it might have then.
   */
  ghost predicate HidesNothing(s: State, step: Step) {
    step.DeleteRow? && s.admission.Scanned? && step.id in s.admission.atScan && step.id in s.owners ==>
      s.admission.atScan[step.id] <= s.owners[step.id].toWrite
  }

  /** No lease writes and releases between the staging read and the row sum of one evaluation of `_fits`. */
  ghost predicate NoHiddenRelease(c: Config, s: State, steps: seq<Step>)
    requires Runs(c, s, steps)
    decreases |steps|
  {
    steps == [] ||
    (var before, step := steps[..|steps| - 1], steps[|steps| - 1];
     NoHiddenRelease(c, s, before) && HidesNothing(Run(c, s, before), step))
  }

  ghost predicate NothingMissed(s: State) {
    && s.overshoot == 0
    && (s.admission.Scanned? || s.admission.Summed? || s.admission.Fitted? ==> s.admission.missed <= 0)
  }

  lemma NothingMissedStep(c: Config, s: State, step: Step)
    requires Enabled(c, s, step) && NothingMissed(s) && HidesNothing(s, step)
    ensures NothingMissed(Next(c, s, step))
  {
  }

  lemma {:induction false} NothingIsMissed(c: Config, s: State, steps: seq<Step>)
    requires Init(c, s) && Runs(c, s, steps) && NoHiddenRelease(c, s, steps)
    ensures NothingMissed(Run(c, s, steps))
    decreases |steps|
  {
    if steps != [] {
      var before := steps[..|steps| - 1];
      NothingIsMissed(c, s, before);
      NothingMissedStep(c, Run(c, s, before), steps[|steps| - 1]);
    }
  }

  /**
   * Quota safety: final bytes, staged bytes and everything live leases may still write stay within the maximum, and the
   * free space left after all of it stays above the minimum. Only a lease that writes and releases inside one evaluation
   * of `_fits` can break it; not every such run does, because rows may reserve more than is owed.
   */
  lemma QuotaIsSafe(c: Config, s: State, steps: seq<Step>)
    requires Init(c, s) && Runs(c, s, steps) && NoHiddenRelease(c, s, steps)
    ensures var r := Run(c, s, steps);
      r.covered ==> Committed(r) <= c.maxSize && Headroom(r) >= c.minFree
  {
    QuotaUpToOvershoot(c, s, steps);
    NothingIsMissed(c, s, steps);
  }

  /** No reservation at all is released between the staging read and the row sum of an evaluation of `_fits`. */
  ghost predicate NoReleaseInsideFits(c: Config, s: State, steps: seq<Step>)
    requires Runs(c, s, steps)
    decreases |steps|
  {
    steps == [] ||
    (var before, step := steps[..|steps| - 1], steps[|steps| - 1];
     NoReleaseInsideFits(c, s, before) && (step.DeleteRow? ==> !Run(c, s, before).admission.Scanned?))
  }

  lemma {:induction false} NoReleaseHidesNothing(c: Config, s: State, steps: seq<Step>)
    requires Runs(c, s, steps) && NoReleaseInsideFits(c, s, steps)
    ensures NoHiddenRelease(c, s, steps)
    decreases |steps|
  {
    if steps != [] { NoReleaseHidesNothing(c, s, steps[..|steps| - 1]); }
  }

  /** One evaluation of `_fits` is one observation: the row sum directly follows the staging read. */
  ghost predicate AtomicFits(steps: seq<Step>) {
    forall k | 0 <= k < |steps| - 1 && steps[k] == ReadStaging :: steps[k + 1] == ReadRows
  }

  lemma ScannedOnlyByReading(c: Config, s: State, step: Step)
    requires Enabled(c, s, step)
    ensures Next(c, s, step).admission.Scanned? ==> step == ReadStaging || s.admission.Scanned?
    ensures step == ReadRows ==> !Next(c, s, step).admission.Scanned?
  {
  }

  lemma {:induction false} AtomicFitsSeesReleases(c: Config, s: State, steps: seq<Step>)
    requires Init(c, s) && Runs(c, s, steps) && AtomicFits(steps)
    ensures NoReleaseInsideFits(c, s, steps)
    ensures Run(c, s, steps).admission.Scanned? ==> steps != [] && steps[|steps| - 1] == ReadStaging
    decreases |steps|
  {
    if steps != [] {
      var before := steps[..|steps| - 1];
      AtomicFitsSeesReleases(c, s, before);
      ScannedOnlyByReading(c, Run(c, s, before), steps[|steps| - 1]);
      if Run(c, s, before).admission.Scanned? {
        assert before[|before| - 1] == steps[|before| - 1];
        assert steps[|before|] == ReadRows;
      }
    }
  }

  lemma QuotaIsSafeWithAtomicFits(c: Config, s: State, steps: seq<Step>)
    requires Init(c, s) && Runs(c, s, steps) && AtomicFits(steps)
    ensures var r := Run(c, s, steps);
      r.covered ==> Committed(r) <= c.maxSize && Headroom(r) >= c.minFree
  {
    AtomicFitsSeesReleases(c, s, steps);
    NoReleaseHidesNothing(c, s, steps);
    QuotaIsSafe(c, s, steps);
  }
}
