/** Why the quota needs its assumption: a run in which a lease writes and releases inside another's evaluation of `_fits`. */
module CacheOvershoot {
  import opened FiniteSums
  import opened CacheProtocol

  const NO_ROWS: map<Id, nat> := map[]

  const NO_OWNERS: map<Id, Owner> := map[]

  lemma SmallSums(n: nat)
    ensures Total(NO_ROWS, Bytes) == 0 && Total(NO_OWNERS, ToWrite) == 0
    ensures Total(NO_ROWS[0 := n], Bytes) == n
  {
    TotalAdd(NO_ROWS, 0, n, Bytes);
  }

  /** An empty cache of capacity `m` that has covered its quota from the start. */
  function EmptyCache(m: nat): State {
    State(map[], {}, map[], {}, Free, 0, 0, 4 * m, 0, true)
  }

  function Fresh(m: nat): Owner {
    Owner(Active, m, m, m, m, 0, 0)
  }

  function Waiting(m: nat): Owner {
    Owner(Requesting, m, 0, 0, 0, 0, 0)
  }

  /** The state when the first client has been admitted for the whole capacity. */
  function AfterFirst(m: nat): State {
    EmptyCache(m).(owners := NO_OWNERS[0 := Fresh(m)], locks := {0}, rows := NO_ROWS[0 := m], used := {0})
  }

  /** One evaluation of `_fits` without rows and without cached bytes, up to its verdict. */
  lemma EmptyEvaluation(c: Config, s: State, t: State, id: Id, second: bool)
    requires Reaches(c, s, t.(admission := Ready(id, {}, second)))
    requires t.rows == NO_ROWS && t.final == t.staged == 0
    ensures Reaches(c, s, t.(admission := Summed(id, second, 0, 0, 0)))
  {
    SmallSums(0);
    assert WritableAtScan(t) == NO_ROWS;
    Extend(c, s, t.(admission := Ready(id, {}, second)), ReadFinal, t.(admission := Counted(id, second, 0)));
    Extend(c, s, t.(admission := Counted(id, second, 0)), ReadStaging, t.(admission := Scanned(id, second, 0, NO_ROWS, 0)));
    Extend(c, s, t.(admission := Scanned(id, second, 0, NO_ROWS, 0)), ReadRows, t.(admission := Summed(id, second, 0, 0, 0)));
  }

  lemma FirstClientEnters(m: nat)
    requires m > 0
    ensures Reaches(Config(m, 0), EmptyCache(m), Alone(m).(admission := Ready(0, {}, false)))
  {
    var c, s, t := Config(m, 0), EmptyCache(m), Alone(m);
    ReachesStart(c, s);
    assert NO_ROWS.Keys == {} && NO_ROWS - {} == NO_ROWS;
    Extend(c, s, s, TakeLock(0, m), t);
    Extend(c, s, t, Enter(0), t.(admission := Probing(0, {}, {}, {})));
    Extend(c, s, t.(admission := Probing(0, {}, {}, {})), DeleteStale, t.(admission := Ready(0, {}, false)));
  }

  /** The first client, admitted to nothing yet. */
  function Alone(m: nat): State {
    EmptyCache(m).(owners := NO_OWNERS[0 := Waiting(m)], locks := {0}, used := {0})
  }

  lemma FirstClient(m: nat)
    requires m > 0
    ensures Reaches(Config(m, 0), EmptyCache(m), AfterFirst(m))
  {
    var c, s, t := Config(m, 0), EmptyCache(m), Alone(m);
    FirstClientEnters(m);
    EmptyEvaluation(c, s, t, 0, false);
    Extend(c, s, t.(admission := Summed(0, false, 0, 0, 0)), FirstVerdict(0), t.(admission := Ready(0, {}, true)));
    EmptyEvaluation(c, s, t, 0, true);
    FirstClientIsAccepted(m);
  }

  lemma FirstClientIsAccepted(m: nat)
    requires m > 0 && Reaches(Config(m, 0), EmptyCache(m), Alone(m).(admission := Summed(0, true, 0, 0, 0)))
    ensures Reaches(Config(m, 0), EmptyCache(m), AfterFirst(m))
  {
    var c, s, t := Config(m, 0), EmptyCache(m), Alone(m);
    Extend(c, s, t.(admission := Summed(0, true, 0, 0, 0)), Accept, t.(admission := Fitted(0, 0)));
    Extend(c, s, t.(admission := Fitted(0, 0)), InsertRow, AfterFirst(m));
  }

  /** The state in which a second client, asking for as much again, waits beside the first. */
  function BothClients(m: nat): State {
    AfterFirst(m).(owners := AfterFirst(m).owners[1 := Waiting(m)], locks := {0, 1}, used := {0, 1})
  }

  /** The second client probes the first client's row and keeps it, because its lock is held. */
  lemma SecondClientReclaims(m: nat)
    requires m > 0 && Reaches(Config(m, 0), EmptyCache(m), AfterFirst(m))
    ensures Reaches(Config(m, 0), EmptyCache(m), BothClients(m).(admission := Ready(1, {0}, false)))
  {
    var c, s, t := Config(m, 0), EmptyCache(m), BothClients(m);
    var none: set<Id>, row: set<Id> := {}, {0};
    assert row + {1} == {0, 1} && t.rows.Keys == row && row - {0} == none && none + {0} == row && t.rows - none == t.rows;
    Extend(c, s, AfterFirst(m), TakeLock(1, m), t);
    Extend(c, s, t, Enter(1), t.(admission := Probing(1, row, none, none)));
    Extend(c, s, t.(admission := Probing(1, row, none, none)), Probe(0), t.(admission := Probing(1, none, none, row)));
    Extend(c, s, t.(admission := Probing(1, none, none, row)), DeleteStale, t.(admission := Ready(1, row, false)));
  }

  /** Its first evaluation finds no room for it. */
  lemma SecondClientIsToldNo(m: nat)
    requires m > 0 && Reaches(Config(m, 0), EmptyCache(m), BothClients(m).(admission := Ready(1, {0}, false)))
    ensures Reaches(Config(m, 0), EmptyCache(m), BothClients(m).(admission := Ready(1, {}, true)))
  {
    var c, s, t := Config(m, 0), EmptyCache(m), BothClients(m);
    SmallSums(m);
    assert WritableAtScan(t) == NO_ROWS[0 := m];
    Extend(c, s, t.(admission := Ready(1, {0}, false)), ReadFinal, t.(admission := Counted(1, false, 0)));
    Extend(c, s, t.(admission := Counted(1, false, 0)), ReadStaging, t.(admission := Scanned(1, false, 0, NO_ROWS[0 := m], 0)));
    Extend(c, s, t.(admission := Scanned(1, false, 0, NO_ROWS[0 := m], 0)), ReadRows, t.(admission := Summed(1, false, 0, m, 0)));
    Extend(c, s, t.(admission := Summed(1, false, 0, m, 0)), FirstVerdict(0), t.(admission := Ready(1, {}, true)));
  }

  /** The first client has written all it may while the second evaluation was under way. */
  function AfterWriting(m: nat): State {
    BothClients(m).(
      owners := NO_OWNERS[0 := Owner(Active, m, m, m, 0, m, 0)][1 := Waiting(m)], staged := m, free := 3 * m,
      admission := Scanned(1, true, 0, NO_ROWS[0 := m], 0))
  }

  lemma SecondScan(m: nat)
    requires m > 0 && Reaches(Config(m, 0), EmptyCache(m), BothClients(m).(admission := Ready(1, {}, true)))
    ensures Reaches(Config(m, 0), EmptyCache(m), BothClients(m).(admission := Scanned(1, true, 0, NO_ROWS[0 := m], 0)))
  {
    var t := BothClients(m);
    assert WritableAtScan(t) == NO_ROWS[0 := m];
    Extend(Config(m, 0), EmptyCache(m), t.(admission := Ready(1, {}, true)), ReadFinal, t.(admission := Counted(1, true, 0)));
    Extend(Config(m, 0), EmptyCache(m), t.(admission := Counted(1, true, 0)), ReadStaging,
           t.(admission := Scanned(1, true, 0, NO_ROWS[0 := m], 0)));
  }

  lemma WriteInside(m: nat)
    requires m > 0 && Reaches(Config(m, 0), EmptyCache(m), BothClients(m).(admission := Scanned(1, true, 0, NO_ROWS[0 := m], 0)))
    ensures Reaches(Config(m, 0), EmptyCache(m), AfterWriting(m))
  {
    Extend(Config(m, 0), EmptyCache(m), BothClients(m).(admission := Scanned(1, true, 0, NO_ROWS[0 := m], 0)), WriteChunk(0, m),
           AfterWriting(m));
  }

  /** And has deleted its row, still before the row sum. */
  function AfterRelease(m: nat): State {
    BothClients(m).(
      owners := NO_OWNERS[0 := Owner(Releasing, m, m, m, 0, 0, 0)][1 := Waiting(m)],
      rows := NO_ROWS, staged := m, free := 3 * m)
  }

  lemma ReleaseInside(m: nat)
    requires m > 0 && Reaches(Config(m, 0), EmptyCache(m), AfterWriting(m))
    ensures Reaches(Config(m, 0), EmptyCache(m), AfterRelease(m).(admission := Scanned(1, true, 0, NO_ROWS, m)))
  {
    assert NO_ROWS[0 := m] - {0} == NO_ROWS;
    Extend(Config(m, 0), EmptyCache(m), AfterWriting(m), DeleteRow(0), AfterRelease(m).(admission := Scanned(1, true, 0, NO_ROWS, m)));
  }

  /** The row sum now finds nothing, so the second evaluation accepts. */
  lemma AcceptedAnyway(m: nat)
    requires m > 0 && Reaches(Config(m, 0), EmptyCache(m), AfterRelease(m).(admission := Scanned(1, true, 0, NO_ROWS, m)))
    ensures Reaches(Config(m, 0), EmptyCache(m), AfterRelease(m).(admission := Fitted(1, m)))
  {
    var c, s, t := Config(m, 0), EmptyCache(m), AfterRelease(m);
    SmallSums(m);
    Extend(c, s, t.(admission := Scanned(1, true, 0, NO_ROWS, m)), ReadRows, t.(admission := Summed(1, true, 0, 0, m)));
    Extend(c, s, t.(admission := Summed(1, true, 0, 0, m)), Accept, t.(admission := Fitted(1, m)));
  }

  function OverCommitted(m: nat): State {
    AfterRelease(m).(
      owners := NO_OWNERS[0 := Owner(Releasing, m, m, m, 0, 0, 0)][1 := Fresh(m)],
      rows := NO_ROWS[1 := m], overshoot := m, covered := true)
  }

  lemma InsertedAnyway(m: nat)
    requires m > 0 && Reaches(Config(m, 0), EmptyCache(m), AfterRelease(m).(admission := Fitted(1, m)))
    ensures Reaches(Config(m, 0), EmptyCache(m), OverCommitted(m))
  {
    Extend(Config(m, 0), EmptyCache(m), AfterRelease(m).(admission := Fitted(1, m)), InsertRow, OverCommitted(m));
  }

  lemma TwiceTheCapacity(m: nat)
    ensures Committed(OverCommitted(m)) == m + m
  {
    var spent := NO_OWNERS[0 := Owner(Releasing, m, m, m, 0, 0, 0)];
    SmallSums(m);
    TotalAdd(NO_OWNERS, 0, spent[0], ToWrite);
    TotalAdd(spent, 1, Fresh(m), ToWrite);
  }

  /**
   * The assumption is needed, at every size: if a client writes `m` bytes and releases its row between another
   * admission's staging read and row sum, that admission sees neither the bytes nor the row, and the cache is
   * committed to `m` bytes more than its maximum.
   */
  lemma ReleaseInsideFitsOvershoots(m: nat)
    requires m > 0
    ensures Init(Config(m, 0), EmptyCache(m))
    ensures exists t :: Reaches(Config(m, 0), EmptyCache(m), t) && t.covered && Committed(t) == m + m && t.overshoot == m
  {
    FirstClient(m);
    SecondClientReclaims(m);
    SecondClientIsToldNo(m);
    SecondScan(m);
    WriteInside(m);
    ReleaseInside(m);
    AcceptedAnyway(m);
    InsertedAnyway(m);
    TwiceTheCapacity(m);
  }
}
