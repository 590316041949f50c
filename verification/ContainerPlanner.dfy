/** The planner's loops, as `save_containers.py` runs them, each against the functions of SaveContainers. */
module ContainerPlanner {
  import opened Options
  import opened Ordering
  import opened SaveContainers
  import opened ReconcileTheorems

  lemma DomainEntriesSnoc(name: string, done: seq<Entry>, e: Entry)
    ensures Filter(InDomain(name), done + [e]) ==
            if e.domain == name then Filter(InDomain(name), done) + [e] else Filter(InDomain(name), done)
  {
    FilterConcat(InDomain(name), done, [e]);
    assert Filter(InDomain(name), [e]) == if e.domain == name then [e] else [];
    assert Filter(InDomain(name), done) + [] == Filter(InDomain(name), done);
  }

  /** `ContainerSnapshot.domain_map`: buckets filled in entry order, then each sorted by identity. */
  method GroupDomains(snapshot: Snapshot) returns (domains: map<string, seq<Entry>>)
    ensures domains == GroupedByDomain(snapshot.entries)
  {
    var entries := snapshot.entries;
    var buckets: map<string, seq<Entry>> := map[];
    for i := 0 to |entries|
      invariant buckets.Keys == DomainNames(entries[..i])
      invariant forall n | n in buckets :: buckets[n] == Filter(InDomain(n), entries[..i])
    {
      var e := entries[i];
      assert entries[..i + 1] == entries[..i] + [e];
      forall n ensures Filter(InDomain(n), entries[..i + 1]) ==
        if e.domain == n then Filter(InDomain(n), entries[..i]) + [e] else Filter(InDomain(n), entries[..i])
      {
        DomainEntriesSnoc(n, entries[..i], e);
      }
      if e.domain !in buckets {
        FilterNone(e.domain, entries[..i]);
        buckets := buckets[e.domain := []];
      }
      buckets := buckets[e.domain := buckets[e.domain] + [e]];
    }
    assert entries[..|entries|] == entries;
    domains := map n | n in buckets :: Sort(ByIdentity, buckets[n]);
  }

  /** The dictionaries and the tombstone set that the planning loop updates. */
  datatype Work = Work(local: map<string, Domain>, remote: map<string, Domain>, base: map<string, Domain>, buried: set<string>)

  /** The working state at one domain: the outcome once the domain is visited, its starting value before. */
  ghost predicate WorkAt(m: Merge, w: Work, visited: bool, n: string) {
    var out := if visited then m.At(n) else Outcome(Converged, Lookup(m.local, n), Lookup(m.remote, n), Lookup(m.base, n));
    && Lookup(w.local, n) == out.local && Lookup(w.remote, n) == out.remote && Lookup(w.base, n) == out.base
    && (n in w.buried <==> if visited then m.BuriedAfter(n) else n in m.buried)
  }

  ghost predicate Progress(m: Merge, w: Work, visited: set<string>) {
    forall n :: WorkAt(m, w, n in visited, n)
  }

  lemma ProgressStep(m: Merge, w: Work, visited: set<string>, w': Work, n: string)
    requires Progress(m, w, visited)
    requires WorkAt(m, w', true, n)
    requires OnlyAt(w, w', n)
    ensures Progress(m, w', visited + {n})
  {
    forall k ensures WorkAt(m, w', k in visited + {n}, k) {
      assert WorkAt(m, w, k in visited, k);
    }
  }

  lemma ProgressDone(m: Merge, w: Work, visited: set<string>)
    requires Progress(m, w, visited) && m.Names() <= visited
    ensures w == Work(m.NextLocal(), m.NextRemote(), m.NextBase(), m.NextBuried() + (w.buried - m.Names()))
    ensures forall n | n in w.buried && n !in m.Names() :: n in visited
  {
    forall n
      ensures Lookup(w.local, n) == Lookup(m.NextLocal(), n)
      ensures Lookup(w.remote, n) == Lookup(m.NextRemote(), n)
      ensures Lookup(w.base, n) == Lookup(m.NextBase(), n)
      ensures n in m.Names() ==> (n in w.buried <==> n in m.NextBuried())
      ensures n in w.buried && n !in m.Names() ==> n in visited
    {
      assert WorkAt(m, w, n in visited, n);
      NextPointwise(m, n);
      BuriedPointwise(m, n);
    }
    SameLookups(w.local, m.NextLocal());
    SameLookups(w.remote, m.NextRemote());
    SameLookups(w.base, m.NextBase());
  }

  lemma VisitNext(keys: seq<string>, i: nat, visited: set<string>)
    requires StrictlySorted(keys) && i < |keys|
    requires forall j | 0 <= j < |keys| :: keys[j] in visited <==> j < i
    ensures forall j | 0 <= j < |keys| :: keys[j] in visited + {keys[i]} <==> j < i + 1
  {
    forall j | 0 <= j < |keys| && j != i ensures keys[j] != keys[i] {
      if j < i { assert Lt(keys[j], keys[i]); } else { assert Lt(keys[i], keys[j]); }
    }
  }

  /** Only the named domain differs between two working states. */
  ghost predicate OnlyAt(w: Work, w': Work, n: string) {
    && (forall k | k != n :: Lookup(w'.local, k) == Lookup(w.local, k) && Lookup(w'.remote, k) == Lookup(w.remote, k))
    && (forall k | k != n :: Lookup(w'.base, k) == Lookup(w.base, k) && (k in w'.buried <==> k in w.buried))
  }

  /** One iteration of the loop of save_containers.py:372-406. */
  method MergeDomain(m: Merge, w: Work, domain: string) returns (decision: Decision, w': Work)
    requires WorkAt(m, w, false, domain)
    ensures decision == m.DecisionAt(domain)
    ensures WorkAt(m, w', true, domain) && OnlyAt(w, w', domain)
  {
    var desiredLocal, desiredRemote, nextDomains, nextTombstones := w.local, w.remote, w.base, w.buried;
    var base, l, r := Lookup(m.base, domain), Lookup(m.local, domain), Lookup(m.remote, domain);
    var action, selected := Conflict, None;
    if l == r {
      action, selected := Converged, l;
    } else if l == base {
      action, selected := UseRemote, r;
      if selected == None { desiredLocal := desiredLocal - {domain}; }
      else { desiredLocal := desiredLocal[domain := selected.value]; }
    } else if r == base {
      action, selected := UseLocal, l;
      if selected == None { desiredRemote := desiredRemote - {domain}; }
      else { desiredRemote := desiredRemote[domain := selected.value]; }
    }
    decision := Decision(domain, action, base, l, r);
    if action != Conflict {
      if selected == None {
        nextDomains := nextDomains - {domain};
        nextTombstones := nextTombstones + {domain};
      } else {
        nextDomains := nextDomains[domain := selected.value];
        nextTombstones := nextTombstones - {domain};
      }
    }
    w' := Work(desiredLocal, desiredRemote, nextDomains, nextTombstones);
  }

  method MergeLoop(m: Merge, allDomains: seq<string>) returns (decisions: seq<Decision>, w: Work)
    requires StrictlySorted(allDomains) && forall n :: n in allDomains <==> n in m.Names()
    ensures |decisions| == |allDomains| && forall i | 0 <= i < |allDomains| :: decisions[i] == m.DecisionAt(allDomains[i])
    ensures w == Work(m.NextLocal(), m.NextRemote(), m.NextBase(), m.NextBuried())
  {
    decisions, w := [], Work(m.local, m.remote, m.base, m.buried);
    ghost var visited: set<string> := {};
    for i := 0 to |allDomains|
      invariant visited <= m.Names()
      invariant forall j | 0 <= j < |allDomains| :: allDomains[j] in visited <==> j < i
      invariant |decisions| == i && forall j | 0 <= j < i :: decisions[j] == m.DecisionAt(allDomains[j])
      invariant Progress(m, w, visited)
    {
      var domain := allDomains[i];
      assert WorkAt(m, w, domain in visited, domain);
      var decision, w' := MergeDomain(m, w, domain);
      ProgressStep(m, w, visited, w', domain);
      VisitNext(allDomains, i, visited);
      decisions, w, visited := decisions + [decision], w', visited + {domain};
    }
    assert forall n | n in m.Names() :: n in allDomains;
    ProgressDone(m, w, visited);
  }

  /** The branch of save_containers.py:363-422. */
  method PlanThreeWay(local: Snapshot, remote: Snapshot, baseline: Baseline) returns (plan: Plan)
    requires Compatible(local, remote, Some(baseline))
    ensures Ok(plan) == Reconcile(local, remote, Some(baseline))
  {
    DomainMapOfSortedValues(View(local));
    DomainMapOfSortedValues(View(remote));
    var m := Merge(DomainMap(baseline.domains), Tombstones(baseline),
                   DomainMap(SnapshotToDomains(local)), DomainMap(SnapshotToDomains(remote)));
    var allDomains := SortedKeys(m.Names());
    var decisions, w := MergeLoop(m, allDomains);
    assert decisions == m.Decisions(allDomains);
    plan := Plan(local.id.containerId, decisions, SortedValues(w.local), SortedValues(w.remote),
                 Baseline(baseline.id, SortedValues(w.base), SortedKeys(w.buried)));
  }

  function BootstrapDecision(m: Merge, n: string): Decision {
    Decision(n, BootstrapAt(m.local, m.remote, n).action, None, Lookup(m.local, n), Lookup(m.remote, n))
  }

  /** One iteration of the loop of save_containers.py:323-345, which consults no baseline and keeps no tombstones. */
  method BootstrapDomain(m: Merge, w: Work, domain: string) returns (decision: Decision, w': Work)
    requires m.base == map[] && m.buried == {} && domain in m.Names()
    requires WorkAt(m, w, false, domain)
    ensures decision == BootstrapDecision(m, domain)
    ensures WorkAt(m, w', true, domain) && OnlyAt(w, w', domain)
  {
    var desiredLocal, desiredRemote, nextDomains := w.local, w.remote, w.base;
    var l, r := Lookup(m.local, domain), Lookup(m.remote, domain);
    var action, selected := Conflict, None;
    if l == r {
      action, selected := Converged, l;
    } else if r == None {
      action, selected := UseLocal, l;
      desiredRemote := desiredRemote[domain := selected.value];
    } else if l == None {
      action, selected := UseRemote, r;
      desiredLocal := desiredLocal[domain := selected.value];
    }
    decision := Decision(domain, action, None, l, r);
    if selected.Some? {
      nextDomains := nextDomains[domain := selected.value];
    }
    w' := Work(desiredLocal, desiredRemote, nextDomains, w.buried);
  }

  method BootstrapLoop(m: Merge, allDomains: seq<string>) returns (decisions: seq<Decision>, w: Work)
    requires m.base == map[] && m.buried == {}
    requires StrictlySorted(allDomains) && forall n :: n in allDomains <==> n in m.Names()
    ensures |decisions| == |allDomains| && forall i | 0 <= i < |allDomains| :: decisions[i] == BootstrapDecision(m, allDomains[i])
    ensures w.local == m.NextLocal() && w.remote == m.NextRemote() && w.base == m.NextBase()
  {
    decisions, w := [], Work(m.local, m.remote, m.base, m.buried);
    ghost var visited: set<string> := {};
    for i := 0 to |allDomains|
      invariant visited <= m.Names()
      invariant forall j | 0 <= j < |allDomains| :: allDomains[j] in visited <==> j < i
      invariant |decisions| == i && forall j | 0 <= j < i :: decisions[j] == BootstrapDecision(m, allDomains[j])
      invariant Progress(m, w, visited)
    {
      var domain := allDomains[i];
      assert WorkAt(m, w, domain in visited, domain);
      var decision, w' := BootstrapDomain(m, w, domain);
      ProgressStep(m, w, visited, w', domain);
      VisitNext(allDomains, i, visited);
      decisions, w, visited := decisions + [decision], w', visited + {domain};
    }
    assert forall n | n in m.Names() :: n in allDomains;
    ProgressDone(m, w, visited);
  }

  /** The branch of save_containers.py:313-361. */
  method PlanBootstrap(local: Snapshot, remote: Snapshot) returns (plan: Plan)
    requires Compatible(local, remote, None)
    ensures Ok(plan) == Reconcile(local, remote, None)
  {
    DomainMapOfSortedValues(View(local));
    DomainMapOfSortedValues(View(remote));
    var localMap, remoteMap := DomainMap(SnapshotToDomains(local)), DomainMap(SnapshotToDomains(remote));
    var allDomains := SortedKeys(localMap.Keys + remoteMap.Keys);
    var decisions, w := BootstrapLoop(Merge(map[], {}, localMap, remoteMap), allDomains);
    assert decisions == BootstrapDecisions(localMap, remoteMap, allDomains);
    BootstrapSides(localMap, remoteMap);
    plan := Plan(local.id.containerId, decisions, SortedValues(w.local), SortedValues(w.remote),
                 Baseline(local.id, SortedValues(w.base), []));
  }

  /** `plan_container_reconcile` */
  method PlanContainerReconcile(local: Snapshot, remote: Snapshot, baseline: Option<Baseline>) returns (r: Result<Plan, Reason>)
    ensures r == Reconcile(local, remote, baseline)
  {
    if local.id != remote.id || (baseline.Some? && baseline.value.id != local.id) {
      return Err(AdapterVersionMismatch);
    }
    var plan: Plan;
    if baseline == None {
      plan := PlanBootstrap(local, remote);
    } else {
      plan := PlanThreeWay(local, remote, baseline.value);
    }
    return Ok(plan);
  }

  lemma {:induction false} RehydrateEntriesSnoc(observed: seq<Entry>, name: string, done: seq<LogicalEntry>, w: LogicalEntry)
    ensures RehydrateEntries(observed, name, done + [w]) ==
      var a, b := RehydrateEntries(observed, name, done), FirstMatch(observed, name, w);
      if a == None || b == None then None else Some(a.value + [b.value])
  {
    if done != [] {
      assert (done + [w])[1..] == done[1..] + [w];
      RehydrateEntriesSnoc(observed, name, done[1..], w);
      var f, a, b := FirstMatch(observed, name, done[0]), RehydrateEntries(observed, name, done[1..]), FirstMatch(observed, name, w);
      if f.Some? && a.Some? && b.Some? {
        assert [f.value] + (a.value + [b.value]) == ([f.value] + a.value) + [b.value];
      }
    } else {
      assert done + [w] == [w] && [w][1..] == [];
      assert RehydrateEntries(observed, name, done) == Some([]);
      var f := FirstMatch(observed, name, w);
      if f.Some? { assert [f.value] + [] == [] + [f.value]; }
    }
  }

  lemma {:induction false} RehydrateSnoc(observed: seq<Entry>, done: seq<Domain>, d: Domain)
    ensures Rehydrate(observed, done + [d]) ==
      var a, b := Rehydrate(observed, done), RehydrateEntries(observed, d.name, d.entries);
      if a == None || b == None then None else Some(a.value + b.value)
  {
    if done != [] {
      assert (done + [d])[1..] == done[1..] + [d];
      RehydrateSnoc(observed, done[1..], d);
      var f := RehydrateEntries(observed, done[0].name, done[0].entries);
      var a, b := Rehydrate(observed, done[1..]), RehydrateEntries(observed, d.name, d.entries);
      if f.Some? && a.Some? && b.Some? {
        assert f.value + (a.value + b.value) == (f.value + a.value) + b.value;
      }
    } else {
      assert ([] + [d])[1..] == [];
      var b := RehydrateEntries(observed, d.name, d.entries);
      if b.Some? { assert b.value + [] == [] + b.value; }
    }
  }

  lemma {:induction false} RehydrateEntriesPrefix(observed: seq<Entry>, name: string, wanted: seq<LogicalEntry>, i: nat)
    requires i <= |wanted| && RehydrateEntries(observed, name, wanted[..i]) == None
    ensures RehydrateEntries(observed, name, wanted) == None
    decreases |wanted| - i
  {
    if i == |wanted| {
      assert wanted[..i] == wanted;
    } else {
      assert wanted[..i + 1] == wanted[..i] + [wanted[i]];
      RehydrateEntriesSnoc(observed, name, wanted[..i], wanted[i]);
      RehydrateEntriesPrefix(observed, name, wanted, i + 1);
    }
  }

  lemma {:induction false} RehydratePrefix(observed: seq<Entry>, desired: seq<Domain>, i: nat)
    requires i <= |desired| && Rehydrate(observed, desired[..i]) == None
    ensures Rehydrate(observed, desired) == None
    decreases |desired| - i
  {
    if i == |desired| {
      assert desired[..i] == desired;
    } else {
      assert desired[..i + 1] == desired[..i] + [desired[i]];
      RehydrateSnoc(observed, desired[..i], desired[i]);
      RehydratePrefix(observed, desired, i + 1);
    }
  }

  /** `matches[0]`, found by the scan over the observed entries. */
  method FindMatch(observed: seq<Entry>, name: string, wanted: LogicalEntry) returns (found: Option<Entry>)
    ensures found == FirstMatch(observed, name, wanted)
  {
    for i := 0 to |observed|
      invariant FirstMatch(observed[i..], name, wanted) == FirstMatch(observed, name, wanted)
    {
      if MatchesLogical(observed[i], name, wanted) { return Some(observed[i]); }
      assert observed[i..][1..] == observed[i + 1..];
    }
    return None;
  }

  /** The inner loop of `target_snapshot`: one desired domain's entries, or nothing if one is missing. */
  method FindDomain(observed: seq<Entry>, d: Domain) returns (found: Option<seq<Entry>>)
    ensures found == RehydrateEntries(observed, d.name, d.entries)
  {
    var entries: seq<Entry> := [];
    for j := 0 to |d.entries|
      invariant RehydrateEntries(observed, d.name, d.entries[..j]) == Some(entries)
    {
      assert d.entries[..j + 1] == d.entries[..j] + [d.entries[j]];
      RehydrateEntriesSnoc(observed, d.name, d.entries[..j], d.entries[j]);
      var e := FindMatch(observed, d.name, d.entries[j]);
      if e == None {
        RehydrateEntriesPrefix(observed, d.name, d.entries, j + 1);
        return None;
      }
      entries := entries + [e.value];
    }
    assert d.entries[..|d.entries|] == d.entries;
    return Some(entries);
  }

  /** `target_snapshot` */
  method TargetSnapshot(plan: Plan, local: Snapshot, remote: Snapshot, side: string) returns (r: Result<Snapshot, Reason>)
    ensures r == Target(plan, local, remote, side)
  {
    if side != "local" && side != "remote" { return Err(InvalidSide); }
    var desired := if side == "local" then plan.desiredLocal else plan.desiredRemote;
    var observed := local.entries + remote.entries;
    var entries: seq<Entry> := [];
    for i := 0 to |desired|
      invariant Rehydrate(observed, desired[..i]) == Some(entries)
    {
      assert desired[..i + 1] == desired[..i] + [desired[i]];
      RehydrateSnoc(observed, desired[..i], desired[i]);
      var found := FindDomain(observed, desired[i]);
      if found == None {
        RehydratePrefix(observed, desired, i + 1);
        return Err(ValidationFailure);
      }
      entries := entries + found.value;
    }
    assert desired[..|desired|] == desired;
    return Ok(Snapshot(local.id, Sort(ByIdentity, entries)));
  }
}
