/** Stale reclamation: what `_reclaim_stale_locked` may delete in any run of the protocol. */
module CacheReclamation {
  import opened CacheProtocol

  /** At some earlier step the row was probed and its liveness lock was found held. */
  ghost predicate ProbedHeld(c: Config, s: State, steps: seq<Step>, id: Id)
    requires Runs(c, s, steps)
    decreases |steps|
  {
    steps != [] &&
    (var before, step := steps[..|steps| - 1], steps[|steps| - 1];
     ProbedHeld(c, s, before, id) || (step == Probe(id) && id in Run(c, s, before).locks))
  }

  function Kept(a: Admission): set<Id> {
    if a.Probing? || a.Ready? then a.kept else {}
  }

  lemma KeptStep(c: Config, s: State, step: Step)
    requires Enabled(c, s, step)
    ensures forall id | id in Kept(Next(c, s, step).admission) && id !in Kept(s.admission) :: step == Probe(id) && id in s.locks
  {
  }

  lemma {:induction false} KeptWereHeld(c: Config, s: State, steps: seq<Step>)
    requires Init(c, s) && Runs(c, s, steps)
    ensures forall id | id in Kept(Run(c, s, steps).admission) :: ProbedHeld(c, s, steps, id)
    decreases |steps|
  {
    if steps != [] {
      var before, step := steps[..|steps| - 1], steps[|steps| - 1];
      KeptWereHeld(c, s, before);
      KeptStep(c, Run(c, s, before), step);
    }
  }

  /**
   * Reclamation is exact: it deletes no row whose owner is alive, every row it leaves was found locked when it
   * was probed, and what it deletes is exactly the rows probed and found unlocked.
   */
  lemma ReclaimIsExact(c: Config, s: State, steps: seq<Step>)
    requires Init(c, s) && Runs(c, s, steps) && Enabled(c, Run(c, s, steps), DeleteStale)
    ensures var t := Run(c, s, steps); var t' := Next(c, t, DeleteStale);
      && (forall id | id in t.rows && id in t.owners :: id in t'.rows && t'.rows[id] == t.rows[id])
      && (forall id | id in t'.rows :: ProbedHeld(c, s, steps, id))
      && (forall id | id in t.rows && id !in t'.rows :: id in t.admission.dead && id !in t.locks)
  {
    InvHolds(c, s, steps);
    KeptWereHeld(c, s, steps);
    assert forall id | id in Run(c, s, steps).admission.kept :: id in Kept(Run(c, s, steps).admission);
  }

  /** In every reachable state a row whose owner is alive has its liveness lock held. */
  lemma LiveRowsAreLocked(c: Config, s: State, steps: seq<Step>, id: Id)
    requires Init(c, s) && Runs(c, s, steps)
    ensures var r := Run(c, s, steps);
      && (id in r.owners && id in r.rows ==> id in r.locks)
      && (id in r.rows && id in r.locks ==> id in r.owners && r.rows[id] >= Owed(r.owners[id]))
  {
    InvHolds(c, s, steps);
    var r := Run(c, s, steps);
    if id in r.owners { assert Promised(r, id); }
  }
}
