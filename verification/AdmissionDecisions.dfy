/** When an admission is granted and when it is refused, in terms of what its two readings found. */
module AdmissionDecisions {
  import opened Options
  import opened Reservations
  import opened FiniteSums
  import opened CacheProtocol

  // ---- what an evaluation has read -----------------------------------------------------------

  /** The state before one step of a run. */
  ghost function At(c: Config, s: State, steps: seq<Step>, k: nat): State
    requires Runs(c, s, steps) && k <= |steps|
    decreases |steps|
  {
    if k == |steps| then Run(c, s, steps) else At(c, s, steps[..|steps| - 1], k)
  }

  /** Nothing but steps of other processes, and no reading, from one step of a run up to another. */
  ghost predicate NoReading(steps: seq<Step>, from: nat, to: nat) {
    forall k | from <= k < to && k < |steps| :: steps[k] != ReadStaging && steps[k] != ReadRows
  }

  /** The staged and final bytes were read at step `j`, and nothing was read since. */
  ghost predicate BytesRead(c: Config, s: State, steps: seq<Step>, j: nat, seen: int)
    requires Runs(c, s, steps)
  {
    && j < |steps| && steps[j] == ReadStaging && NoReading(steps, j + 1, |steps|)
    && seen == At(c, s, steps, j).final + At(c, s, steps, j).staged
  }

  /** The bytes were read at step `j`, the rows summed at step `k`, and nothing was read in between or since. */
  ghost predicate Evaluated(c: Config, s: State, steps: seq<Step>, j: nat, k: nat, seen: int, active: int)
    requires Runs(c, s, steps)
  {
    && j < k < |steps| && steps[j] == ReadStaging && steps[k] == ReadRows
    && NoReading(steps, j + 1, k) && NoReading(steps, k + 1, |steps|)
    && seen == At(c, s, steps, j).final + At(c, s, steps, j).staged
    && active == Total(At(c, s, steps, k).rows, Bytes)
  }

  lemma BytesReadBefore(c: Config, s: State, steps: seq<Step>, j: nat, seen: int)
    requires Runs(c, s, steps) && steps != [] && BytesRead(c, s, steps[..|steps| - 1], j, seen)
    ensures var step := steps[|steps| - 1];
      && (step != ReadStaging && step != ReadRows ==> BytesRead(c, s, steps, j, seen))
      && (step == ReadRows ==> Evaluated(c, s, steps, j, |steps| - 1, seen, Total(Run(c, s, steps[..|steps| - 1]).rows, Bytes)))
  {
  }

  lemma EvaluatedBefore(c: Config, s: State, steps: seq<Step>, j: nat, k: nat, seen: int, active: int)
    requires Runs(c, s, steps) && steps != [] && Evaluated(c, s, steps[..|steps| - 1], j, k, seen, active)
    requires steps[|steps| - 1] != ReadStaging && steps[|steps| - 1] != ReadRows
    ensures Evaluated(c, s, steps, j, k, seen, active)
  {
  }

  lemma ReadingSteps(c: Config, s: State, step: Step)
    requires Enabled(c, s, step) && Bounded(c, s)
    ensures var a, a' := s.admission, Next(c, s, step).admission;
      && (a'.Scanned? ==> if step == ReadStaging then a'.seen == s.final + s.staged else a.Scanned? && a'.seen == a.seen)
      && (a'.Summed? ==>
            if step == ReadRows then a.Scanned? && a'.seen == a.seen && a'.active == Total(s.rows, Bytes)
            else a.Summed? && a'.seen == a.seen && a'.active == a.active)
      && (a.Scanned? ==> step != ReadStaging) && (a.Summed? ==> step != ReadStaging && step != ReadRows)
      && (a'.Scanned? ==> step != ReadRows) && (a'.Summed? ==> step != ReadStaging)
  {
  }

  /** The step that led to the last state of a run. */
  lemma LastStep(c: Config, s: State, steps: seq<Step>)
    requires Runs(c, s, steps) && steps != []
    ensures Runs(c, s, steps[..|steps| - 1]) && Enabled(c, Run(c, s, steps[..|steps| - 1]), steps[|steps| - 1])
    ensures Run(c, s, steps) == Next(c, Run(c, s, steps[..|steps| - 1]), steps[|steps| - 1])
  {
  }

  /** The staging tree was read, and nothing since. */
  lemma {:induction false} BytesWereRead(c: Config, s: State, steps: seq<Step>) returns (j: nat)
    requires Init(c, s) && Runs(c, s, steps) && Run(c, s, steps).admission.Scanned?
    ensures BytesRead(c, s, steps, j, Run(c, s, steps).admission.seen)
    decreases |steps|
  {
    var before, step := steps[..|steps| - 1], steps[|steps| - 1];
    LastStep(c, s, steps);
    InvHolds(c, s, before);
    ReadingSteps(c, Run(c, s, before), step);
    if step == ReadStaging {
      j := |before|;
    } else {
      j := BytesWereRead(c, s, before);
      BytesReadBefore(c, s, steps, j, Run(c, s, before).admission.seen);
    }
  }

  /** A finished evaluation knows the bytes at one reading and the rows at a later one, the last two of the run. */
  lemma {:induction false} EvaluationReads(c: Config, s: State, steps: seq<Step>) returns (j: nat, k: nat)
    requires Init(c, s) && Runs(c, s, steps) && Run(c, s, steps).admission.Summed?
    ensures Evaluated(c, s, steps, j, k, Run(c, s, steps).admission.seen, Run(c, s, steps).admission.active)
    decreases |steps|
  {
    var before, step := steps[..|steps| - 1], steps[|steps| - 1];
    LastStep(c, s, steps);
    InvHolds(c, s, before);
    ReadingSteps(c, Run(c, s, before), step);
    if step == ReadRows {
      j := BytesWereRead(c, s, before);
      k := |before|;
      BytesReadBefore(c, s, steps, j, Run(c, s, before).admission.seen);
    } else {
      j, k := EvaluationReads(c, s, before);
      EvaluatedBefore(c, s, steps, j, k, Run(c, s, before).admission.seen, Run(c, s, before).admission.active);
    }
  }

  // ---- the verdict -----------------------------------------------------------------------------

  /** There is room for a request beside the bytes read and the rows summed. */
  predicate Room(c: Config, bytes: int, rows: int, free: int, requested: int) {
    bytes + rows + requested <= c.maxSize && free - rows - requested >= c.minFree
  }

  /**
   * In every run an admission is accepted if there is room beside the final and staged bytes of its last reading and the
   * rows it then summed, and refused if there is not; and it evicts before only if its first evaluation found no room.
   */
  lemma VerdictFollowsReadings(c: Config, s: State, steps: seq<Step>) returns (j: nat, k: nat)
    requires Init(c, s) && Runs(c, s, steps) && Run(c, s, steps).admission.Summed?
    ensures j < k < |steps| && steps[j] == ReadStaging && steps[k] == ReadRows
    ensures NoReading(steps, j + 1, k) && NoReading(steps, k + 1, |steps|)
    ensures var r := Run(c, s, steps);
      && r.admission.holder in r.owners
      && var room := Room(c, At(c, s, steps, j).final + At(c, s, steps, j).staged, Total(At(c, s, steps, k).rows, Bytes), r.free, Requested(r));
         && (Enabled(c, r, Accept) <==> r.admission.second && room)
         && (Enabled(c, r, Refuse) <==> r.admission.second && !room)
         && forall e: nat | 0 < e <= r.final :: Enabled(c, r, FirstVerdict(e)) <==> !r.admission.second && !room
  {
    InvHolds(c, s, steps);
    j, k := EvaluationReads(c, s, steps);
    VerdictOf(c, Run(c, s, steps));
  }

  lemma VerdictOf(c: Config, r: State)
    requires r.admission.Summed? && r.admission.holder in r.owners
    ensures var room := Room(c, r.admission.seen, r.admission.active, r.free, Requested(r));
      && (Enabled(c, r, Accept) <==> r.admission.second && room)
      && (Enabled(c, r, Refuse) <==> r.admission.second && !room)
      && forall e: nat | 0 < e <= r.final :: Enabled(c, r, FirstVerdict(e)) <==> !r.admission.second && !room
  {
  }

  /** Whatever an owner is admitted to, refused or holds, it asked for just those bytes. */
  lemma {:induction false} RequestedAsAsked(c: Config, s: State, steps: seq<Step>, id: Id) returns (i: nat)
    requires Init(c, s) && Runs(c, s, steps) && id in Run(c, s, steps).owners
    ensures i < |steps| && steps[i] == TakeLock(id, Run(c, s, steps).owners[id].requested)
    decreases |steps|
  {
    var before, step := steps[..|steps| - 1], steps[|steps| - 1];
    LastStep(c, s, steps);
    RequestStays(c, Run(c, s, before), step, id);
    if id in Run(c, s, before).owners && !(step.TakeLock? && step.id == id) {
      i := RequestedAsAsked(c, s, before, id);
    } else {
      i := |before|;
    }
  }

  lemma RequestStays(c: Config, s: State, step: Step, id: Id)
    requires Enabled(c, s, step) && id in Next(c, s, step).owners
    ensures if step.TakeLock? && step.id == id then Next(c, s, step).owners[id].requested == step.bytes
      else id in s.owners && Next(c, s, step).owners[id].requested == s.owners[id].requested
  {
  }

  // ---- an evaluation that nobody disturbs ------------------------------------------------------

  /** What rows reserve beyond the bytes that live owners may still write: reported late, protected, or left by the dead. */
  ghost function Slack(s: State): int {
    Total(s.rows, Bytes) - Total(s.owners, ToWrite)
  }

  lemma SlackIsNatural(c: Config, s: State, steps: seq<Step>)
    requires Init(c, s) && Runs(c, s, steps)
    ensures Slack(Run(c, s, steps)) >= 0
  {
    InvHolds(c, s, steps);
    var r := Run(c, s, steps);
    forall id | id in r.owners ensures ToWrite(r.owners[id]) <= if id in r.rows then Bytes(r.rows[id]) else 0 {
      assert Promised(r, id);
    }
    TotalAtMost(r.owners, ToWrite, r.rows, Bytes);
  }

  /** The three readings of one `_fits` can follow each other directly. */
  ghost predicate EvaluationEnabled(c: Config, s: State) {
    && Enabled(c, s, ReadFinal) && Enabled(c, Next(c, s, ReadFinal), ReadStaging)
    && Enabled(c, Next(c, Next(c, s, ReadFinal), ReadStaging), ReadRows)
  }

  ghost function Evaluation(c: Config, s: State): State
    requires EvaluationEnabled(c, s)
  {
    Next(c, Next(c, Next(c, s, ReadFinal), ReadStaging), ReadRows)
  }

  lemma UndisturbedReading(c: Config, s: State, second: bool)
    requires s.admission.Ready? && s.admission.second == second
    ensures EvaluationEnabled(c, s)
    ensures var r := Evaluation(c, s);
      && r.admission.Summed? && r.admission.holder == s.admission.holder && r.admission.second == second
      && r.admission.seen == s.final + s.staged && r.admission.active == Total(s.rows, Bytes)
      && r.owners == s.owners && r.free == s.free
  {
  }

  /**
   * The final evaluation, if nobody moves while it reads: the request is accepted exactly if the committed bytes, the
   * slack of the rows and the request together stay within the maximum and leave the minimum free, and refused otherwise.
   */
  lemma UndisturbedVerdict(c: Config, s: State, steps: seq<Step>)
    requires Init(c, s) && Runs(c, s, steps) && Run(c, s, steps).admission.Ready? && Run(c, s, steps).admission.second
    ensures var t := Run(c, s, steps);
      && t.admission.holder in t.owners && EvaluationEnabled(c, t)
      && var r := Evaluation(c, t);
         var fits := Committed(t) + Slack(t) + Requested(t) <= c.maxSize && Headroom(t) - Slack(t) - Requested(t) >= c.minFree;
         && (Enabled(c, r, Accept) <==> fits) && (Enabled(c, r, Refuse) <==> !fits)
  {
    InvHolds(c, s, steps);
    UndisturbedReading(c, Run(c, s, steps), true);
  }

  /** Every row is exactly what its living owner may still write. */
  ghost predicate RowsAreTight(s: State) {
    s.rows.Keys <= s.owners.Keys && forall id | id in s.rows :: s.rows[id] == s.owners[id].toWrite
  }

  lemma TightRowsHaveNoSlack(c: Config, s: State, steps: seq<Step>)
    requires Init(c, s) && Runs(c, s, steps) && RowsAreTight(Run(c, s, steps))
    ensures Slack(Run(c, s, steps)) == 0
  {
    SlackIsNatural(c, s, steps);
    var r := Run(c, s, steps);
    forall id | id in r.owners ensures 0 <= ToWrite(r.owners[id]) {}
    TotalAtMost(r.rows, Bytes, r.owners, ToWrite);
  }

  /** With tight rows an undisturbed admission is refused only if the request really does not fit, and accepted if it does. */
  lemma TightVerdict(c: Config, s: State, steps: seq<Step>)
    requires Init(c, s) && Runs(c, s, steps) && Run(c, s, steps).admission.Ready? && Run(c, s, steps).admission.second
    requires RowsAreTight(Run(c, s, steps))
    ensures var t := Run(c, s, steps);
      && t.admission.holder in t.owners && EvaluationEnabled(c, t)
      && var r := Evaluation(c, t);
         (Enabled(c, r, Refuse) <==> Committed(t) + Requested(t) > c.maxSize || Headroom(t) - Requested(t) < c.minFree)
         && (Enabled(c, r, Accept) <==> !Enabled(c, r, Refuse))
  {
    UndisturbedVerdict(c, s, steps);
    TightRowsHaveNoSlack(c, s, steps);
  }

  // ---- a request that runs to its end ------------------------------------------------------------

  /** The rows that reclamation leaves: those whose liveness lock is held. */
  function LiveRows(s: State): map<Id, nat> {
    s.rows - (s.rows.Keys - s.locks)
  }

  /** What probing has found when all of these rows are done. */
  function Probed(id: Id, locks: set<Id>, todo: set<Id>, dead: set<Id>, kept: set<Id>): Admission {
    Probing(id, {}, dead + (todo - locks), kept + (todo * locks))
  }

  lemma ProbedNext(id: Id, locks: set<Id>, todo: set<Id>, dead: set<Id>, kept: set<Id>, row: Id)
    requires row in todo
    ensures Probed(id, locks, todo, dead, kept) ==
      if row in locks then Probed(id, locks, todo - {row}, dead, kept + {row}) else Probed(id, locks, todo - {row}, dead + {row}, kept)
  {
  }

  lemma ProbedAll(id: Id, locks: set<Id>, dead: set<Id>, kept: set<Id>)
    ensures Probed(id, locks, {}, dead, kept) == Probing(id, {}, dead, kept)
  {
  }

  /** Probing goes through all rows, whatever their order. */
  lemma {:induction false} ProbeAll(c: Config, s: State, t: State, id: Id, todo: set<Id>, dead: set<Id>, kept: set<Id>)
    requires Reaches(c, s, t.(admission := Probing(id, todo, dead, kept)))
    ensures Reaches(c, s, t.(admission := Probed(id, t.locks, todo, dead, kept)))
    decreases |todo|
  {
    if todo == {} {
      ProbedAll(id, t.locks, dead, kept);
    } else {
      var row :| row in todo;
      var found := ProbeOne(c, s, t, id, todo, dead, kept, row);
      ProbedNext(id, t.locks, todo, dead, kept, row);
      ProbeAll(c, s, t, id, todo - {row}, found.dead, found.kept);
    }
  }

  lemma ProbeOne(c: Config, s: State, t: State, id: Id, todo: set<Id>, dead: set<Id>, kept: set<Id>, row: Id) returns (found: Admission)
    requires Reaches(c, s, t.(admission := Probing(id, todo, dead, kept))) && row in todo
    ensures found == if row in t.locks then Probing(id, todo - {row}, dead, kept + {row}) else Probing(id, todo - {row}, dead + {row}, kept)
    ensures Reaches(c, s, t.(admission := found))
  {
    found := if row in t.locks then Probing(id, todo - {row}, dead, kept + {row}) else Probing(id, todo - {row}, dead + {row}, kept);
    Extend(c, s, t.(admission := Probing(id, todo, dead, kept)), Probe(row), t.(admission := found));
  }

  lemma Reclaims(c: Config, s: State, t: State, id: Id)
    requires Reaches(c, s, t) && t.admission.Free? && id in t.owners && t.owners[id].phase == Requesting
    ensures Reaches(c, s, t.(rows := LiveRows(t), admission := Ready(id, t.rows.Keys * t.locks, false)))
  {
    var none: set<Id> := {};
    Extend(c, s, t, Enter(id), t.(admission := Probing(id, t.rows.Keys, none, none)));
    ProbeAll(c, s, t, id, t.rows.Keys, none, none);
    var dead, kept := t.rows.Keys - t.locks, t.rows.Keys * t.locks;
    assert none + dead == dead && none + kept == kept;
    Extend(c, s, t.(admission := Probing(id, {}, dead, kept)), DeleteStale, t.(rows := LiveRows(t), admission := Ready(id, kept, false)));
  }

  /** One evaluation of `_fits`, up to its verdict. */
  lemma Evaluates(c: Config, s: State, t: State, id: Id, kept: set<Id>, second: bool)
    requires Reaches(c, s, t.(admission := Ready(id, kept, second)))
    ensures Reaches(c, s, t.(admission := Summed(id, second, t.final + t.staged, Total(t.rows, Bytes), 0)))
  {
    var counted := t.(admission := Counted(id, second, t.final));
    var scanned := t.(admission := Scanned(id, second, t.final + t.staged, WritableAtScan(t), 0));
    assert WritableAtScan(counted) == WritableAtScan(t);
    Extend(c, s, t.(admission := Ready(id, kept, second)), ReadFinal, counted);
    Extend(c, s, counted, ReadStaging, scanned);
    Extend(c, s, scanned, ReadRows, t.(admission := Summed(id, second, t.final + t.staged, Total(t.rows, Bytes), 0)));
  }

  lemma EvaluatesTwice(c: Config, s: State, t: State, id: Id, kept: set<Id>)
    requires Reaches(c, s, t.(admission := Ready(id, kept, false))) && id in t.owners
    ensures Reaches(c, s, t.(admission := Summed(id, true, t.final + t.staged, Total(t.rows, Bytes), 0)))
  {
    var seen, active := t.final + t.staged, Total(t.rows, Bytes);
    Evaluates(c, s, t, id, kept, false);
    var summed := t.(admission := Summed(id, false, seen, active, 0));
    assert Enabled(c, summed, FirstVerdict(0));
    Extend(c, s, summed, FirstVerdict(0), t.(admission := Ready(id, {}, true)));
    Evaluates(c, s, t, id, {}, true);
  }

  /** What an admitted request leaves: the live rows and its own, for as many bytes as it asked. */
  function Granted(t: State, id: Id): State
    requires id in t.owners
  {
    var n := t.owners[id].requested;
    t.(rows := LiveRows(t)[id := n], owners := t.owners[id := Owner(Active, n, n, n, n, 0, 0)],
       overshoot := Max(t.overshoot, 0), covered := true)
  }

  function Denied(t: State, id: Id): State {
    t.(rows := LiveRows(t), owners := t.owners - {id}, locks := t.locks - {id})
  }

  /**
   * From every reachable state a waiting request that is left alone gets its answer without evicting anything: it is
   * granted if there is room beside the bytes present and the rows of the living, and denied if there is not.
   */
  lemma RequestIsAnswered(c: Config, s: State, t: State, id: Id)
    requires Reaches(c, s, t) && t.admission.Free? && id in t.owners && t.owners[id].phase == Requesting
    ensures if Room(c, t.final + t.staged, Total(LiveRows(t), Bytes), t.free, t.owners[id].requested)
      then Reaches(c, s, Granted(t, id)) else Reaches(c, s, Denied(t, id))
  {
    var u := t.(rows := LiveRows(t));
    Reclaims(c, s, t, id);
    EvaluatesTwice(c, s, u, id, t.rows.Keys * t.locks);
    var summed := u.(admission := Summed(id, true, u.final + u.staged, Total(u.rows, Bytes), 0));
    if Room(c, t.final + t.staged, Total(LiveRows(t), Bytes), t.free, t.owners[id].requested) {
      Extend(c, s, summed, Accept, u.(admission := Fitted(id, 0)));
      Extend(c, s, u.(admission := Fitted(id, 0)), InsertRow, Granted(t, id));
    } else {
      Extend(c, s, summed, Refuse, Denied(t, id));
    }
  }

  // ---- where the bytes go --------------------------------------------------------------------------

  /** Bytes that a step brings into the cache tree, or takes out of it. */
  function Arriving(step: Step): int {
    match step
    case WriteChunk(_, n) => n
    case RemoveStaged(_, n) => -(n as int)
    case FirstVerdict(evicted) => -(evicted as int)
    case _ => 0
  }

  function Arrived(steps: seq<Step>): int {
    if steps == [] then 0 else Arrived(steps[..|steps| - 1]) + Arriving(steps[|steps| - 1])
  }

  /** In every run the cache tree holds what was written and neither removed nor evicted, and the disk lost exactly that. */
  lemma {:induction false} BytesAreAccountedFor(c: Config, s: State, steps: seq<Step>)
    requires Runs(c, s, steps)
    ensures var r := Run(c, s, steps);
      r.final + r.staged == s.final + s.staged + Arrived(steps) && r.free == s.free - Arrived(steps)
    decreases |steps|
  {
    if steps != [] {
      BytesAreAccountedFor(c, s, steps[..|steps| - 1]);
      ArrivingBytes(c, Run(c, s, steps[..|steps| - 1]), steps[|steps| - 1]);
    }
  }

  lemma ArrivingBytes(c: Config, s: State, step: Step)
    requires Enabled(c, s, step)
    ensures var t := Next(c, s, step); t.final + t.staged == s.final + s.staged + Arriving(step) && t.free == s.free - Arriving(step)
  {
  }

  /** The promise that a lease gives up when it ends, the bytes it takes on when it is admitted, or those evicted. */
  ghost function Surrendered(s: State, step: Step): int {
    match step
    case FirstVerdict(evicted) => evicted
    case InsertRow => if !s.admission.Free? && s.admission.holder in s.owners then -(Requested(s) as int) else 0
    case DeleteRow(id) => if id in s.owners then s.owners[id].toWrite else 0
    case Crash(id) => if id in s.owners then s.owners[id].toWrite else 0
    case _ => 0
  }

  /** What is committed changes by that and by nothing else; so does the headroom, but for the sign. */
  lemma CommittedChanges(c: Config, s: State, steps: seq<Step>, step: Step)
    requires Init(c, s) && Runs(c, s, steps) && Enabled(c, Run(c, s, steps), step)
    ensures var t := Run(c, s, steps); var t' := Next(c, t, step);
      Committed(t') == Committed(t) - Surrendered(t, step) && Headroom(t') == Headroom(t) + Surrendered(t, step)
  {
    InvHolds(c, s, steps);
    var t := Run(c, s, steps);
    TotalsOfStep(c, t, step);
    ArrivingBytes(c, t, step);
    WritableChanges(c, t, step);
  }

  /** How what the acting owner may still write changes. */
  lemma WritableChanges(c: Config, s: State, step: Step)
    requires Locked(s) && Admitting(s) && AllPromised(s) && Enabled(c, s, step)
    ensures var t, id := Next(c, s, step), Actor(s, step);
      (if id in t.owners then t.owners[id].toWrite else 0)
        == (if id in s.owners then s.owners[id].toWrite else 0) - Surrendered(s, step) - Arriving(step)
  {
    if step.InsertRow? || step.Refuse? { assert Promised(s, s.admission.holder); }
    if step.Unlock? { assert Promised(s, step.id); }
  }

  // ---- what a lease may write ----------------------------------------------------------------------

  function Moved(step: Step, id: Id): int {
    match step
    case WriteChunk(i, n) => if i == id then -(n as int) else 0
    case RemoveStaged(i, n) => if i == id then n else 0
    case _ => 0
  }

  /** The bytes that one owner has removed from staging, less those it has written. */
  function Balance(steps: seq<Step>, id: Id): int {
    if steps == [] then 0 else Balance(steps[..|steps| - 1], id) + Moved(steps[|steps| - 1], id)
  }

  /** A lease may still write what it was admitted for and what it has removed, less what it has written. */
  ghost predicate InBalance(r: State, id: Id, balance: int) {
    && (id !in r.used ==> balance == 0)
    && (id in r.owners ==>
          match r.owners[id].phase
          case Requesting => balance == 0
          case Releasing => true
          case _ => r.owners[id].toWrite == r.owners[id].requested + balance)
  }

  lemma BalanceStep(c: Config, s: State, step: Step, id: Id, balance: int)
    requires Locked(s) && Admitting(s) && Enabled(c, s, step) && InBalance(s, id, balance)
    ensures InBalance(Next(c, s, step), id, balance + Moved(step, id))
  {
    if step.InsertRow? || step.TakeLock? { BalanceOfArrivals(c, s, step, id, balance); }
  }

  lemma BalanceOfArrivals(c: Config, s: State, step: Step, id: Id, balance: int)
    requires Locked(s) && Admitting(s) && Enabled(c, s, step) && InBalance(s, id, balance) && (step.InsertRow? || step.TakeLock?)
    ensures InBalance(Next(c, s, step), id, balance + Moved(step, id))
  {
  }

  lemma {:induction false} LeasesAreInBalance(c: Config, s: State, steps: seq<Step>, id: Id)
    requires Init(c, s) && Runs(c, s, steps)
    ensures InBalance(Run(c, s, steps), id, Balance(steps, id))
    decreases |steps|
  {
    if steps != [] {
      var before, step := steps[..|steps| - 1], steps[|steps| - 1];
      LastStep(c, s, steps);
      LeasesAreInBalance(c, s, before, id);
      InvHolds(c, s, before);
      BalanceStep(c, Run(c, s, before), step, id, Balance(before, id));
    }
  }

  /** In every run an active lease may write just those bytes: all of them, and not one more. */
  lemma LeaseMayWrite(c: Config, s: State, steps: seq<Step>, id: Id, n: nat)
    requires Init(c, s) && Runs(c, s, steps) && id in Run(c, s, steps).owners && Run(c, s, steps).owners[id].phase == Active
    ensures Enabled(c, Run(c, s, steps), WriteChunk(id, n)) <==> n <= Run(c, s, steps).owners[id].requested + Balance(steps, id)
  {
    LeasesAreInBalance(c, s, steps, id);
  }
}
