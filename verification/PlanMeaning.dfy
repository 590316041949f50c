/** What a plan says, in terms of the entries it was made from. */
module PlanMeaning {
  import opened Options
  import opened Ordering
  import opened SaveContainers
  import opened ReconcileTheorems

  // ---- versions of a domain ----------------------------------------------------------------

  /** What the entries of one merge domain say. */
  ghost function DomainContents(s: Snapshot, name: string): set<(string, string, int)> {
    set e | e in s.entries && e.domain == name :: (e.identity, e.hash, e.size)
  }

  lemma DomainContentsOf(s: Snapshot, name: string)
    ensures forall i, h, n :: (i, h, n) in DomainContents(s, name) <==> (name, i, h, n) in Contents(s.entries)
    ensures name in View(s) <==> DomainContents(s, name) != {}
  {
    if e :| e in s.entries && e.domain == name {
      assert (e.identity, e.hash, e.size) in DomainContents(s, name);
    }
  }

  /** Two snapshots hold the same version of a domain exactly if the same entries say the same things in it. */
  lemma SameVersionSameContents(s: Snapshot, t: Snapshot, name: string)
    requires UniquePerDomain(s.entries) && UniquePerDomain(t.entries)
    ensures Lookup(View(s), name) == Lookup(View(t), name) <==> DomainContents(s, name) == DomainContents(t, name)
  {
    DomainContentsOf(s, name);
    DomainContentsOf(t, name);
    if DomainContents(s, name) == DomainContents(t, name) {
      forall c: (string, string, string, int) | c.0 == name ensures c in Contents(s.entries) <==> c in Contents(t.entries) {
        assert c == (name, c.1, c.2, c.3);
      }
      SameLogicalDomain(s.entries, t.entries, name);
    }
    if Lookup(View(s), name) == Lookup(View(t), name) {
      VersionTellsContents(s, t, name);
      VersionTellsContents(t, s, name);
    }
  }

  lemma VersionTellsContents(s: Snapshot, t: Snapshot, name: string)
    requires Lookup(View(s), name) == Lookup(View(t), name)
    ensures DomainContents(s, name) <= DomainContents(t, name)
  {
    forall c | c in DomainContents(s, name) ensures c in DomainContents(t, name) {
      var x := LogicalEntry(c.0, c.1, c.2);
      assert c == (x.identity, x.hash, x.size);
      DomainContentsOf(s, name);
      DomainContentsOf(t, name);
      LogicalEntriesOf(s.entries, name);
      LogicalEntriesOf(t.entries, name);
      assert x in View(s)[name].entries;
    }
  }

  /** Made by the same adapter, in the same format, from the same container. */
  predicate SameOrigin(a: Identity, b: Identity) {
    a.containerId == b.containerId && a.adapterId == b.adapterId && a.schemaVersion == b.schemaVersion && a.formatVariant == b.formatVariant
  }

  /** A reconcile is refused exactly if a snapshot or the baseline is of another origin than the others. */
  lemma MismatchIsRefused(local: Snapshot, remote: Snapshot, baseline: Option<Baseline>)
    ensures Reconcile(local, remote, baseline) == Err(AdapterVersionMismatch) <==>
      !SameOrigin(local.id, remote.id) || (baseline.Some? && !SameOrigin(local.id, baseline.value.id))
    ensures Reconcile(local, remote, baseline).Err? ==> Reconcile(local, remote, baseline).error == AdapterVersionMismatch
  {
  }

  // ---- which domains a plan lists ------------------------------------------------------------

  lemma {:induction false} DomainMapKeys(domains: seq<Domain>, name: string)
    ensures name in DomainMap(domains) <==> exists d :: d in domains && d.name == name
  {
    if domains != [] {
      var front, last := domains[..|domains| - 1], domains[|domains| - 1];
      DomainMapKeys(front, name);
      assert domains == front + [last];
      if d :| d in front && d.name == name { assert d in domains; }
      if last.name == name { assert last in domains; }
    }
  }

  ghost predicate Holds(s: Snapshot, name: string) {
    exists e :: e in s.entries && e.domain == name
  }

  ghost predicate Records(baseline: Baseline, name: string) {
    name in baseline.tombstones || exists d :: d in baseline.domains && d.name == name
  }

  /** A domain that one of the snapshots holds, or that the baseline records as present or as absent. */
  ghost predicate Mentioned(local: Snapshot, remote: Snapshot, baseline: Option<Baseline>, name: string) {
    Holds(local, name) || Holds(remote, name) || (baseline.Some? && Records(baseline.value, name))
  }

  lemma HeldNames(s: Snapshot, name: string)
    ensures name in View(s) <==> Holds(s, name)
  {
  }

  lemma RecordedNames(baseline: Baseline, name: string)
    ensures name in DomainMap(baseline.domains) || name in Tombstones(baseline) <==> Records(baseline, name)
  {
    DomainMapKeys(baseline.domains, name);
  }

  lemma MentionedNames(local: Snapshot, remote: Snapshot, baseline: Option<Baseline>, name: string)
    ensures name in MergeOf(local, remote, baseline).Names() <==> Mentioned(local, remote, baseline, name)
  {
    HeldNames(local, name);
    HeldNames(remote, name);
    if baseline.Some? { RecordedNames(baseline.value, name); }
  }

  ghost predicate InNameOrder(domains: seq<Domain>) {
    forall i, j | 0 <= i < j < |domains| :: Lt(domains[i].name, domains[j].name)
  }

  lemma SortedValuesInOrder(m: map<string, Domain>)
    requires Keyed(m)
    ensures InNameOrder(SortedValues(m))
  {
    var keys, values := SortedKeys(m.Keys), SortedValues(m);
    forall i, j | 0 <= i < j < |values| ensures Lt(values[i].name, values[j].name) {
      assert keys[i] in keys && keys[j] in keys && Lt(keys[i], keys[j]);
    }
  }

  ghost predicate Decides(p: Plan, name: string) {
    exists d :: d in p.decisions && d.domain == name
  }

  /** A plan decides every mentioned domain once and no other, and lists everything by name. */
  lemma PlanListsEveryDomainOnce(local: Snapshot, remote: Snapshot, baseline: Option<Baseline>)
    requires Compatible(local, remote, baseline)
    ensures var p := Reconcile(local, remote, baseline).value;
      && p.containerId == local.id.containerId && p.nextBaseline.id == local.id
      && (forall i, j | 0 <= i < j < |p.decisions| :: Lt(p.decisions[i].domain, p.decisions[j].domain))
      && (forall name :: Decides(p, name) <==> Mentioned(local, remote, baseline, name))
      && InNameOrder(p.desiredLocal) && InNameOrder(p.desiredRemote) && InNameOrder(p.nextBaseline.domains)
      && StrictlySorted(p.nextBaseline.tombstones)
  {
    var m := MergeOf(local, remote, baseline);
    ReconcileIsThreeWay(local, remote, baseline);
    PlanInOrder(m, local.id);
    forall name ensures Decides(m.ThreeWayPlan(local.id), name) <==> Mentioned(local, remote, baseline, name) {
      DecidedNames(m, local.id, name);
      MentionedNames(local, remote, baseline, name);
    }
  }

  lemma PlanInOrder(m: Merge, id: Identity)
    requires KeyedMerge(m)
    ensures var p := m.ThreeWayPlan(id);
      && (forall i, j | 0 <= i < j < |p.decisions| :: Lt(p.decisions[i].domain, p.decisions[j].domain))
      && InNameOrder(p.desiredLocal) && InNameOrder(p.desiredRemote) && InNameOrder(p.nextBaseline.domains)
      && StrictlySorted(p.nextBaseline.tombstones)
  {
    NextKeyed(m);
    SortedValuesInOrder(m.NextLocal());
    SortedValuesInOrder(m.NextRemote());
    SortedValuesInOrder(m.NextBase());
  }

  lemma DecidedNames(m: Merge, id: Identity, name: string)
    ensures Decides(m.ThreeWayPlan(id), name) <==> name in m.Names()
  {
    var keys := SortedKeys(m.Names());
    var decisions := m.Decisions(keys);
    if d :| d in decisions && d.domain == name {
      var i :| 0 <= i < |decisions| && decisions[i] == d;
      assert keys[i] in keys;
    }
    if name in m.Names() {
      assert name in keys;
      var i :| 0 <= i < |keys| && keys[i] == name;
      assert decisions[i] == m.DecisionAt(name);
    }
  }

  // ---- what a decision says --------------------------------------------------------------------

  /** What one reconcile does to one domain; a version is a domain's entries, or none. */
  datatype Effect = Effect(local: Option<Domain>, remote: Option<Domain>, base: Option<Domain>, buried: bool)

  /** The effect of carrying out a plan: both targets built from the observed snapshots, the next baseline stored. */
  ghost function EffectOf(local: Snapshot, remote: Snapshot, baseline: Option<Baseline>, name: string): Effect
    requires Compatible(local, remote, baseline)
  {
    TargetsNeverFail(local, remote, baseline);
    ReconcileEffect(local, remote, baseline, name);
    var p := Reconcile(local, remote, baseline).value;
    Effect(
      Lookup(View(Target(p, local, remote, "local").value), name),
      Lookup(View(Target(p, local, remote, "remote").value), name),
      Lookup(DomainMap(p.nextBaseline.domains), name),
      name in p.nextBaseline.tombstones)
  }

  /** What a decision reports about its domain, and the effect that its action announces. */
  ghost predicate SaysWhatHappens(d: Decision, before: Effect, after: Effect) {
    && d.local == before.local && d.remote == before.remote && d.base == before.base
    && (match d.action
        case Converged => before.local == before.remote && after.local == before.local && after.remote == before.remote
        case UseLocal =>
          && before.local != before.remote && before.remote == before.base
          && after.local == before.local && after.remote == before.local
        case UseRemote =>
          && before.local != before.remote && before.local == before.base
          && after.local == before.remote && after.remote == before.remote
        case Conflict =>
          && before.local != before.remote && before.local != before.base && before.remote != before.base && after == before)
    && (d.action != Conflict ==> after.base == after.local == after.remote && (after.buried <==> after.base == None))
  }

  ghost function Before(local: Snapshot, remote: Snapshot, baseline: Option<Baseline>, name: string): Effect {
    match baseline
    case None => Effect(Lookup(View(local), name), Lookup(View(remote), name), None, false)
    case Some(b) => Effect(Lookup(View(local), name), Lookup(View(remote), name), Lookup(DomainMap(b.domains), name), name in b.tombstones)
  }

  /**
   * Every decision names what is done: use-local carries the local version to an unchanged remote, use-remote the remote
   * version to an unchanged local, a conflict leaves all as it was, tombstones included.
   */
  lemma DecisionsSayWhatHappens(local: Snapshot, remote: Snapshot, baseline: Option<Baseline>, d: Decision)
    requires Compatible(local, remote, baseline) && d in Reconcile(local, remote, baseline).value.decisions
    ensures SaysWhatHappens(d, Before(local, remote, baseline, d.domain), EffectOf(local, remote, baseline, d.domain))
  {
    var m := MergeOf(local, remote, baseline);
    var p := Reconcile(local, remote, baseline).value;
    ReconcileIsThreeWay(local, remote, baseline);
    ReconcileEffect(local, remote, baseline, d.domain);
    var i :| 0 <= i < |p.decisions| && p.decisions[i] == d;
    var keys := SortedKeys(m.Names());
    assert d == m.DecisionAt(keys[i]) && keys[i] in keys;
    BuriedPointwise(m, d.domain);
    assert d.domain in p.nextBaseline.tombstones <==> d.domain in m.NextBuried();
    EffectAt(m, d.domain, Before(local, remote, baseline, d.domain), EffectOf(local, remote, baseline, d.domain));
  }

  lemma EffectAt(m: Merge, name: string, before: Effect, after: Effect)
    requires name in m.Names()
    requires before == Effect(Lookup(m.local, name), Lookup(m.remote, name), Lookup(m.base, name), name in m.buried)
    requires var out := m.At(name); after == Effect(out.local, out.remote, out.base, m.BuriedAfter(name))
    ensures SaysWhatHappens(m.DecisionAt(name), before, after)
  {
  }

  /** A domain is reported as converged exactly if both sides hold the same entries with the same hashes and sizes. */
  lemma ConvergedExactlyWhenSame(local: Snapshot, remote: Snapshot, baseline: Option<Baseline>, d: Decision)
    requires Compatible(local, remote, baseline) && d in Reconcile(local, remote, baseline).value.decisions
    requires UniquePerDomain(local.entries) && UniquePerDomain(remote.entries)
    ensures d.action == Converged <==> DomainContents(local, d.domain) == DomainContents(remote, d.domain)
  {
    DecisionsSayWhatHappens(local, remote, baseline, d);
    SameVersionSameContents(local, remote, d.domain);
  }

  /** The only entry of a domain has another hash, or another size, on the other side: the domain has not converged. */
  lemma ChangedEntryIsNoticed(local: Snapshot, remote: Snapshot, baseline: Option<Baseline>, d: Decision, e: Entry, f: Entry)
    requires Compatible(local, remote, baseline) && d in Reconcile(local, remote, baseline).value.decisions
    requires UniquePerDomain(local.entries) && UniquePerDomain(remote.entries)
    requires e in local.entries && f in remote.entries && e.domain == f.domain == d.domain && e.identity == f.identity
    requires forall g | g in local.entries && g.domain == d.domain :: g == e
    requires forall g | g in remote.entries && g.domain == d.domain :: g == f
    ensures d.action == Converged <==> e.hash == f.hash && e.size == f.size
  {
    ConvergedExactlyWhenSame(local, remote, baseline, d);
    OnlyEntryOf(local, e);
    OnlyEntryOf(remote, f);
    assert (e.identity, e.hash, e.size) in {(f.identity, f.hash, f.size)} <==> e.hash == f.hash && e.size == f.size;
  }

  lemma OnlyEntryOf(s: Snapshot, e: Entry)
    requires e in s.entries && forall g | g in s.entries && g.domain == e.domain :: g == e
    ensures DomainContents(s, e.domain) == {(e.identity, e.hash, e.size)}
  {
    assert (e.identity, e.hash, e.size) in DomainContents(s, e.domain);
  }

  // ---- a plan tells its snapshots apart --------------------------------------------------------

  lemma PlanTellsView(l1: Snapshot, r1: Snapshot, l2: Snapshot, r2: Snapshot, baseline: Option<Baseline>)
    requires Compatible(l1, r1, baseline) && Compatible(l2, r2, baseline) && Reconcile(l1, r1, baseline) == Reconcile(l2, r2, baseline)
    ensures View(l1) == View(l2) && View(r1) == View(r2)
  {
    var m1, m2 := MergeOf(l1, r1, baseline), MergeOf(l2, r2, baseline);
    ReconcileIsThreeWay(l1, r1, baseline);
    ReconcileIsThreeWay(l2, r2, baseline);
    forall name ensures Lookup(View(l1), name) == Lookup(View(l2), name) && Lookup(View(r1), name) == Lookup(View(r2), name) {
      SameDecision(m1, m2, name);
    }
    SameLookups(View(l1), View(l2));
    SameLookups(View(r1), View(r2));
  }

  lemma SameNames(m1: Merge, m2: Merge, name: string)
    requires m1.Decisions(SortedKeys(m1.Names())) == m2.Decisions(SortedKeys(m2.Names()))
    ensures name in m1.Names() <==> name in m2.Names()
  {
    var id := Identity("", "", 0, "");
    DecidedNames(m1, id, name);
    DecidedNames(m2, id, name);
  }

  lemma SameDecision(m1: Merge, m2: Merge, name: string)
    requires m1.Decisions(SortedKeys(m1.Names())) == m2.Decisions(SortedKeys(m2.Names()))
    ensures Lookup(m1.local, name) == Lookup(m2.local, name) && Lookup(m1.remote, name) == Lookup(m2.remote, name)
  {
    SameNames(m1, m2, name);
    if name in m1.Names() {
      var keys1, keys2 := SortedKeys(m1.Names()), SortedKeys(m2.Names());
      assert name in keys1;
      var i :| 0 <= i < |keys1| && keys1[i] == name;
      assert m1.Decisions(keys1)[i] == m2.Decisions(keys2)[i];
    }
  }

  /** Two reconciles against one baseline plan the same if and only if their snapshots say the same. */
  lemma PlansAgreeExactlyWhenContentsDo(l1: Snapshot, r1: Snapshot, l2: Snapshot, r2: Snapshot, baseline: Option<Baseline>)
    requires Compatible(l1, r1, baseline) && l1.id == l2.id && r1.id == r2.id
    requires UniquePerDomain(l1.entries) && UniquePerDomain(r1.entries) && UniquePerDomain(l2.entries) && UniquePerDomain(r2.entries)
    ensures Reconcile(l1, r1, baseline) == Reconcile(l2, r2, baseline) <==>
      Contents(l1.entries) == Contents(l2.entries) && Contents(r1.entries) == Contents(r2.entries)
  {
    ViewIsCanonical(l1, l2);
    ViewIsCanonical(r1, r2);
    if Reconcile(l1, r1, baseline) == Reconcile(l2, r2, baseline) {
      PlanTellsView(l1, r1, l2, r2, baseline);
    } else if View(l1) == View(l2) && View(r1) == View(r2) {
      PlanIsCanonical(l1, r1, l2, r2, baseline);
    }
  }

  // ---- where a target's entries come from ------------------------------------------------------

  predicate SameButPlace(e: Entry, f: Entry) {
    e.domain == f.domain && e.identity == f.identity && e.hash == f.hash && e.size == f.size
  }

  /** The first entry of a listing that says what it says. */
  ghost predicate FirstToSay(observed: seq<Entry>, e: Entry) {
    exists k :: 0 <= k < |observed| && observed[k] == e && forall j | 0 <= j < k :: !SameButPlace(observed[j], e)
  }

  lemma {:induction false} MatchIsFirst(observed: seq<Entry>, name: string, wanted: LogicalEntry)
    requires FirstMatch(observed, name, wanted).Some?
    ensures var e := FirstMatch(observed, name, wanted).value;
      FirstToSay(observed, e) && e.domain == name && e.identity == wanted.identity && e.hash == wanted.hash && e.size == wanted.size
  {
    var e := FirstMatch(observed, name, wanted).value;
    if observed[0] != e || !MatchesLogical(observed[0], name, wanted) {
      MatchIsFirst(observed[1..], name, wanted);
      var k :| 0 <= k < |observed[1..]| && observed[1..][k] == e && forall j | 0 <= j < k :: !SameButPlace(observed[1..][j], e);
      forall j | 0 <= j < k + 1 ensures !SameButPlace(observed[j], e) {
        if j > 0 { assert observed[1..][j - 1] == observed[j]; }
      }
      assert observed[k + 1] == e;
    } else {
      assert observed[0] == e;
    }
  }

  lemma {:induction false} EntriesAreFirst(observed: seq<Entry>, name: string, wanted: seq<LogicalEntry>)
    requires RehydrateEntries(observed, name, wanted).Some?
    ensures forall e | e in RehydrateEntries(observed, name, wanted).value :: FirstToSay(observed, e)
  {
    if wanted != [] {
      MatchIsFirst(observed, name, wanted[0]);
      EntriesAreFirst(observed, name, wanted[1..]);
    }
  }

  lemma {:induction false} RehydratedAreFirst(observed: seq<Entry>, desired: seq<Domain>)
    requires Rehydrate(observed, desired).Some?
    ensures forall e | e in Rehydrate(observed, desired).value :: FirstToSay(observed, e)
  {
    if desired != [] {
      EntriesAreFirst(observed, desired[0].name, desired[0].entries);
      RehydratedAreFirst(observed, desired[1..]);
    }
  }

  ghost predicate InIdentityOrder(entries: seq<Entry>) {
    forall i, j | 0 <= i < j < |entries| :: Le(entries[i].identity, entries[j].identity)
  }

  lemma SortedInIdentityOrder(entries: seq<Entry>)
    ensures InIdentityOrder(Sort(ByIdentity, entries))
  {
    ByIdentityIsPreorder();
    SortProperties(ByIdentity, entries);
    var sorted := Sort(ByIdentity, entries);
    forall i, j | 0 <= i < j < |sorted| ensures Le(sorted[i].identity, sorted[j].identity) {
      assert ByIdentity(sorted[i], sorted[j]);
    }
  }

  lemma FirstEntriesAreLocalFirst(entries: seq<Entry>, local: seq<Entry>, remote: seq<Entry>)
    requires forall e | e in entries :: FirstToSay(local + remote, e)
    ensures forall e | e in entries :: e in local || (e in remote && forall f | f in local :: !SameButPlace(f, e))
  {
    forall e | e in entries ensures e in local || (e in remote && forall f | f in local :: !SameButPlace(f, e)) {
      LocalComesFirst(local, remote, e);
    }
  }

  /**
   * A target is ordered by identity and made of observed entries: the first that says what is wanted, the local
   * entries before the remote ones on either side. So an entry that the local side holds already keeps its place there.
   */
  lemma TargetTakesFirst(plan: Plan, local: Snapshot, remote: Snapshot, side: string)
    requires Target(plan, local, remote, side).Ok?
    ensures var entries := Target(plan, local, remote, side).value.entries;
      && InIdentityOrder(entries)
      && (forall e | e in entries :: FirstToSay(local.entries + remote.entries, e))
      && (forall e | e in entries ::
            e in local.entries || (e in remote.entries && forall f | f in local.entries :: !SameButPlace(f, e)))
  {
    var observed := local.entries + remote.entries;
    var desired := if side == "local" then plan.desiredLocal else plan.desiredRemote;
    var entries := Rehydrate(observed, desired).value;
    var sorted := Sort(ByIdentity, entries);
    RehydratedAreFirst(observed, desired);
    SortKeepsElements(entries);
    SortedInIdentityOrder(entries);
    FirstEntriesAreLocalFirst(sorted, local.entries, remote.entries);
    assert Target(plan, local, remote, side).value.entries == sorted;
  }

  lemma LocalComesFirst(local: seq<Entry>, remote: seq<Entry>, e: Entry)
    requires FirstToSay(local + remote, e)
    ensures e in local || (e in remote && forall f | f in local :: !SameButPlace(f, e))
  {
    var observed := local + remote;
    var k :| 0 <= k < |observed| && observed[k] == e && forall j | 0 <= j < k :: !SameButPlace(observed[j], e);
    if k < |local| {
      assert local[k] == e;
    } else {
      assert remote[k - |local|] == e;
      forall f | f in local ensures !SameButPlace(f, e) {
        var j :| 0 <= j < |local| && local[j] == f;
        assert observed[j] == f;
      }
    }
  }
}
