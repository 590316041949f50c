/** What one reconcile means: its effect per domain, its symmetry, and its fixpoint. */
module ReconcileTheorems {
  import opened Options
  import opened Ordering
  import opened SaveContainers

  // ---- the plan, domain by domain ----------------------------------------------

  lemma NextPointwise(m: Merge, name: string)
    ensures Lookup(m.NextLocal(), name) == m.At(name).local
    ensures Lookup(m.NextRemote(), name) == m.At(name).remote
    ensures Lookup(m.NextBase(), name) == m.At(name).base
  {
    if name !in m.Names() {
      assert m.At(name) == Outcome(Converged, None, None, None);
    }
  }

  ghost predicate KeyedMerge(m: Merge) {
    Keyed(m.base) && Keyed(m.local) && Keyed(m.remote)
  }

  lemma NextKeyed(m: Merge)
    requires KeyedMerge(m)
    ensures KeyedMerge(m.Next())
  {
    forall n ensures (n in m.NextLocal() ==> m.NextLocal()[n].name == n) && (n in m.NextRemote() ==> m.NextRemote()[n].name == n)
      && (n in m.NextBase() ==> m.NextBase()[n].name == n)
    {
      OutcomeKeyed(m, n);
    }
  }

  lemma OutcomeKeyed(m: Merge, n: string)
    requires KeyedMerge(m)
    ensures var o := m.At(n);
      && (o.local.Some? ==> o.local.value.name == n)
      && (o.remote.Some? ==> o.remote.value.name == n)
      && (o.base.Some? ==> o.base.value.name == n)
  {
  }

  lemma SortedKeysOfNothing()
    ensures SortedKeys({}) == []
  {
    SortedUnique(SortedKeys({}), []);
  }

  lemma SameLookups(a: map<string, Domain>, b: map<string, Domain>)
    requires forall k :: Lookup(a, k) == Lookup(b, k)
    ensures a == b
  {
    forall k ensures k in a <==> k in b { assert Lookup(a, k) == Lookup(b, k); }
    forall k | k in a ensures a[k] == b[k] { assert Lookup(a, k) == Lookup(b, k); }
  }

  lemma BuriedPointwise(m: Merge, name: string)
    ensures name in m.NextBuried() <==> name in m.Names() && m.BuriedAfter(name)
  {
  }

  /** The loop written for a missing baseline plans exactly what the three-way loop plans from an empty one. */
  lemma BootstrapRefinesThreeWay(id: Identity, local: map<string, Domain>, remote: map<string, Domain>)
    ensures BootstrapPlan(id, local, remote) == Merge(map[], {}, local, remote).ThreeWayPlan(id)
  {
    var m := Merge(map[], {}, local, remote);
    var names := local.Keys + remote.Keys;
    assert m.Names() == names;
    BootstrapSides(local, remote);
    forall n ensures n !in m.NextBuried() {
      BuriedPointwise(m, n);
    }
    assert m.NextBuried() == {};
    SortedKeysOfNothing();
    SameBootstrapDecisions(local, remote, SortedKeys(names));
  }

  lemma BootstrapSides(local: map<string, Domain>, remote: map<string, Domain>)
    ensures var m := Merge(map[], {}, local, remote); var names := local.Keys + remote.Keys;
      && m.NextLocal() == (map n | n in names && BootstrapAt(local, remote, n).local.Some? :: BootstrapAt(local, remote, n).local.value)
      && m.NextRemote() == (map n | n in names && BootstrapAt(local, remote, n).remote.Some? :: BootstrapAt(local, remote, n).remote.value)
      && m.NextBase() == (map n | n in names && BootstrapAt(local, remote, n).base.Some? :: BootstrapAt(local, remote, n).base.value)
  {
    var m := Merge(map[], {}, local, remote);
    forall n ensures BootstrapAt(local, remote, n) == m.At(n) {}
    assert m.Names() == local.Keys + remote.Keys;
  }

  lemma {:induction false} SameBootstrapDecisions(local: map<string, Domain>, remote: map<string, Domain>, keys: seq<string>)
    ensures BootstrapDecisions(local, remote, keys) == Merge(map[], {}, local, remote).Decisions(keys)
  {
    if keys != [] { SameBootstrapDecisions(local, remote, keys[1..]); }
  }

  /** What a reconcile reads; an absent baseline counts as one that records nothing. */
  function MergeOf(local: Snapshot, remote: Snapshot, baseline: Option<Baseline>): (r: Merge)
    ensures KeyedMerge(r)
  {
    Merge(
      if baseline == None then map[] else DomainMap(baseline.value.domains),
      if baseline == None then {} else Tombstones(baseline.value),
      View(local), View(remote))
  }

  lemma ReconcileIsThreeWay(local: Snapshot, remote: Snapshot, baseline: Option<Baseline>)
    requires Compatible(local, remote, baseline)
    ensures Reconcile(local, remote, baseline) == Ok(MergeOf(local, remote, baseline).ThreeWayPlan(local.id))
  {
    if baseline == None { BootstrapRefinesThreeWay(local.id, View(local), View(remote)); }
  }

  // ---- symmetry ------------------------------------------------------------------

  function MirrorAction(a: Action): Action {
    match a
    case UseLocal => UseRemote
    case UseRemote => UseLocal
    case _ => a
  }

  function MirrorDecisions(ds: seq<Decision>): (r: seq<Decision>)
    ensures |r| == |ds|
    ensures forall i | 0 <= i < |ds| :: r[i] == Decision(ds[i].domain, MirrorAction(ds[i].action), ds[i].base, ds[i].remote, ds[i].local)
  {
    if ds == [] then []
    else [Decision(ds[0].domain, MirrorAction(ds[0].action), ds[0].base, ds[0].remote, ds[0].local)] + MirrorDecisions(ds[1..])
  }

  function Mirror(p: Plan): Plan {
    Plan(p.containerId, MirrorDecisions(p.decisions), p.desiredRemote, p.desiredLocal, p.nextBaseline)
  }

  function Swap(m: Merge): Merge {
    Merge(m.base, m.buried, m.remote, m.local)
  }

  lemma MirrorAt(m: Merge, n: string)
    ensures var o := m.At(n); Swap(m).At(n) == Outcome(MirrorAction(o.action), o.remote, o.local, o.base)
  {
  }

  lemma MirrorPointwise(m: Merge, n: string)
    ensures Lookup(Swap(m).NextLocal(), n) == Lookup(m.NextRemote(), n)
    ensures Lookup(Swap(m).NextRemote(), n) == Lookup(m.NextLocal(), n)
    ensures Lookup(Swap(m).NextBase(), n) == Lookup(m.NextBase(), n)
  {
    NextPointwise(Swap(m), n);
    NextPointwise(m, n);
    MirrorAt(m, n);
  }

  lemma MirrorBuried(m: Merge, n: string)
    ensures n in Swap(m).NextBuried() <==> n in m.NextBuried()
  {
    BuriedPointwise(Swap(m), n);
    BuriedPointwise(m, n);
    MirrorAt(m, n);
  }

  lemma MirrorMaps(m: Merge)
    ensures Swap(m).Names() == m.Names()
    ensures Swap(m).NextLocal() == m.NextRemote() && Swap(m).NextRemote() == m.NextLocal()
    ensures Swap(m).NextBase() == m.NextBase() && Swap(m).NextBuried() == m.NextBuried()
  {
    forall n ensures Lookup(Swap(m).NextLocal(), n) == Lookup(m.NextRemote(), n) { MirrorPointwise(m, n); }
    SameLookups(Swap(m).NextLocal(), m.NextRemote());
    forall n ensures Lookup(Swap(m).NextRemote(), n) == Lookup(m.NextLocal(), n) { MirrorPointwise(m, n); }
    SameLookups(Swap(m).NextRemote(), m.NextLocal());
    forall n ensures Lookup(Swap(m).NextBase(), n) == Lookup(m.NextBase(), n) { MirrorPointwise(m, n); }
    SameLookups(Swap(m).NextBase(), m.NextBase());
    forall n ensures n in Swap(m).NextBuried() <==> n in m.NextBuried() { MirrorBuried(m, n); }
  }

  lemma {:induction false} MirroredDecisions(m: Merge, keys: seq<string>)
    ensures Swap(m).Decisions(keys) == MirrorDecisions(m.Decisions(keys))
  {
    if keys != [] {
      MirroredDecisions(m, keys[1..]);
      assert m.Decisions(keys)[1..] == m.Decisions(keys[1..]);
      assert Swap(m).DecisionAt(keys[0]).action == MirrorAction(m.DecisionAt(keys[0]).action);
    }
  }

  lemma MirrorThreeWay(m: Merge, id: Identity)
    ensures Swap(m).ThreeWayPlan(id) == Mirror(m.ThreeWayPlan(id))
  {
    MirrorMaps(m);
    MirroredDecisions(m, SortedKeys(m.Names()));
  }

  /** Swapping the sides mirrors the plan and leaves the next baseline as it was; errors are the same. */
  lemma ReconcileIsSymmetric(local: Snapshot, remote: Snapshot, baseline: Option<Baseline>)
    ensures Reconcile(remote, local, baseline) ==
      match Reconcile(local, remote, baseline)
      case Ok(plan) => Ok(Mirror(plan))
      case Err(reason) => Err(reason)
  {
    if Compatible(local, remote, baseline) {
      ReconcileIsThreeWay(local, remote, baseline);
      ReconcileIsThreeWay(remote, local, baseline);
      MirrorThreeWay(MergeOf(local, remote, baseline), local.id);
    }
  }

  // ---- canonicity ----------------------------------------------------------------

  ghost predicate UniquePerDomain(entries: seq<Entry>) {
    forall i, j | 0 <= i < j < |entries| && entries[i].domain == entries[j].domain :: entries[i].identity != entries[j].identity
  }

  /** What the entries of a container say, but for their order and where they are stored. */
  ghost function Contents(entries: seq<Entry>): set<(string, string, string, int)> {
    set e | e in entries :: (e.domain, e.identity, e.hash, e.size)
  }

  lemma {:induction false} FilterUnique(name: string, entries: seq<Entry>)
    requires UniquePerDomain(entries)
    ensures UniquePerDomain(Filter(InDomain(name), entries))
  {
    if entries != [] {
      FilterUnique(name, entries[1..]);
      FilterElements(InDomain(name), entries[1..]);
      var t := Filter(InDomain(name), entries[1..]);
      forall k | 0 <= k < |t| && t[k].domain == entries[0].domain ensures t[k].identity != entries[0].identity {
        assert t[k] in entries[1..];
        var j :| 0 < j < |entries| && entries[j] == t[k];
      }
    }
  }

  lemma DomainEntriesProperties(entries: seq<Entry>, name: string)
    ensures Sorted(ByIdentity, DomainEntries(entries, name))
    ensures forall e :: e in DomainEntries(entries, name) <==> e in entries && e.domain == name
    ensures multiset(DomainEntries(entries, name)) == multiset(Filter(InDomain(name), entries))
  {
    ByIdentityIsPreorder();
    var f := Filter(InDomain(name), entries);
    SortProperties(ByIdentity, f);
    FilterElements(InDomain(name), entries);
    var d := DomainEntries(entries, name);
    forall e ensures e in d <==> e in entries && e.domain == name {
      assert e in d <==> e in multiset(d);
      assert e in f <==> e in multiset(f);
    }
  }

  /** With unique identities a domain is listed in strictly increasing identity order. */
  lemma DomainIdentitiesIncrease(entries: seq<Entry>, name: string)
    requires UniquePerDomain(entries)
    ensures var d := DomainEntries(entries, name);
      forall i, j | 0 <= i < j < |d| :: Lt(d[i].identity, d[j].identity)
  {
    var d, f := DomainEntries(entries, name), Filter(InDomain(name), entries);
    DomainEntriesProperties(entries, name);
    FilterUnique(name, entries);
    FilterElements(InDomain(name), entries);
    forall i, j | 0 <= i < j < |d| ensures Lt(d[i].identity, d[j].identity) {
      assert ByIdentity(d[i], d[j]);
      if d[i].identity == d[j].identity {
        UniqueStaysUnique(f, d, i, j);
      }
    }
  }

  /** A permutation of entries with distinct identities has distinct identities. */
  lemma UniqueStaysUnique(f: seq<Entry>, d: seq<Entry>, i: nat, j: nat)
    requires multiset(f) == multiset(d) && i < j < |d|
    requires forall x | x in f :: x.domain == d[i].domain
    requires UniquePerDomain(f)
    ensures d[i].identity != d[j].identity
  {
    assert d[i] in multiset(f) && d[j] in multiset(f);
    var p :| 0 <= p < |f| && f[p] == d[i];
    var q :| 0 <= q < |f| && f[q] == d[j];
    assert f[p] in f && f[q] in f;
    if d[i] == d[j] {
      OccursTwice(d, i, j);
      OccursOnce(f, p);
    }
    if p < q { assert f[p].identity != f[q].identity; }
    if q < p { assert f[q].identity != f[p].identity; }
  }

  lemma OccursTwice(d: seq<Entry>, i: nat, j: nat)
    requires i < j < |d| && d[i] == d[j]
    ensures multiset(d)[d[i]] >= 2
  {
    assert d == d[..j] + [d[j]] + d[j + 1..];
    assert d[..j][i] == d[i];
    assert d[i] in multiset(d[..j]);
  }

  lemma OccursOnce(f: seq<Entry>, p: nat)
    requires p < |f| && UniquePerDomain(f) && forall x | x in f :: x.domain == f[p].domain
    ensures multiset(f)[f[p]] == 1
  {
    assert f == f[..p] + [f[p]] + f[p + 1..];
    forall k | 0 <= k < |f| && k != p ensures f[k] != f[p] {
      assert f[k] in f;
      if k < p { assert f[k].identity != f[p].identity; } else { assert f[p].identity != f[k].identity; }
    }
    assert f[p] !in f[..p] && f[p] !in f[p + 1..];
  }

  /** Two strictly increasing listings of the same logical entries are the same. */
  lemma {:induction false} IncreasingListingsEqual(a: seq<LogicalEntry>, b: seq<LogicalEntry>)
    requires forall i, j | 0 <= i < j < |a| :: Lt(a[i].identity, a[j].identity)
    requires forall i, j | 0 <= i < j < |b| :: Lt(b[i].identity, b[j].identity)
    requires forall x :: x in a <==> x in b
    ensures a == b
  {
    if a != [] { assert a[0] in b; }
    if b != [] { assert b[0] in a; }
    if a != [] {
      var k :| 0 <= k < |b| && b[k] == a[0];
      var j :| 0 <= j < |a| && a[j] == b[0];
      if k > 0 && j > 0 {
        assert Lt(b[0].identity, b[k].identity) && Lt(a[0].identity, a[j].identity);
        LeAntisymmetric(a[0].identity, b[0].identity);
      }
      assert a[0] == b[0];
      IncreasingTail(a, b);
      IncreasingTail(b, a);
      IncreasingListingsEqual(a[1..], b[1..]);
      assert a == [a[0]] + a[1..] && b == [b[0]] + b[1..];
    }
  }

  lemma IncreasingTail(a: seq<LogicalEntry>, b: seq<LogicalEntry>)
    requires a != [] && b != [] && a[0] == b[0]
    requires forall i, j | 0 <= i < j < |a| :: Lt(a[i].identity, a[j].identity)
    requires forall x :: x in a <==> x in b
    ensures forall x | x in a[1..] :: x in b[1..]
  {
    forall x | x in a[1..] ensures x in b[1..] {
      var k :| 0 < k < |a| && a[k] == x;
      assert Lt(a[0].identity, a[k].identity);
      assert x in b && x != b[0];
      assert b == [b[0]] + b[1..];
    }
  }

  /** A merge domain holds an entry exactly if the container says so. */
  lemma LogicalEntriesOf(entries: seq<Entry>, name: string)
    ensures forall x :: x in LogicalDomain(entries, name).entries <==> (name, x.identity, x.hash, x.size) in Contents(entries)
  {
    DomainEntriesProperties(entries, name);
    var d := DomainEntries(entries, name);
    var l := LogicalDomain(entries, name).entries;
    forall x ensures x in l <==> (name, x.identity, x.hash, x.size) in Contents(entries) {
      if x in l {
        var i :| 0 <= i < |l| && l[i] == x;
        assert d[i] in d && d[i].domain == name;
      }
      if (name, x.identity, x.hash, x.size) in Contents(entries) {
        var e :| e in entries && (e.domain, e.identity, e.hash, e.size) == (name, x.identity, x.hash, x.size);
        assert e in d;
        var i :| 0 <= i < |d| && d[i] == e;
        assert l[i] == x;
      }
    }
  }

  /** What the planner sees of two snapshots is the same if and only if they say the same, entry for entry. */
  lemma ViewIsCanonical(s: Snapshot, t: Snapshot)
    requires UniquePerDomain(s.entries) && UniquePerDomain(t.entries)
    ensures View(s) == View(t) <==> Contents(s.entries) == Contents(t.entries)
    ensures View(s) == View(t) ==> SnapshotToDomains(s) == SnapshotToDomains(t)
  {
    if Contents(s.entries) == Contents(t.entries) {
      SameContentsSameView(s, t);
    }
    if View(s) == View(t) {
      ViewTellsContents(s, t);
      ViewTellsContents(t, s);
    }
  }

  lemma SameContentsSameView(s: Snapshot, t: Snapshot)
    requires UniquePerDomain(s.entries) && UniquePerDomain(t.entries) && Contents(s.entries) == Contents(t.entries)
    ensures View(s) == View(t)
  {
    SameDomainNames(s.entries, t.entries);
    SameDomainNames(t.entries, s.entries);
    forall name | name in View(s) ensures View(s)[name] == View(t)[name] {
      SameLogicalDomain(s.entries, t.entries, name);
    }
  }

  lemma ViewTellsContents(s: Snapshot, t: Snapshot)
    requires View(s) == View(t)
    ensures Contents(s.entries) <= Contents(t.entries)
  {
    forall c | c in Contents(s.entries) ensures c in Contents(t.entries) {
      var x := LogicalEntry(c.1, c.2, c.3);
      assert c == (c.0, x.identity, x.hash, x.size);
      LogicalEntriesOf(s.entries, c.0);
      LogicalEntriesOf(t.entries, c.0);
      assert c.0 in View(s) && x in View(s)[c.0].entries;
    }
  }

  lemma SameLogicalDomain(s: seq<Entry>, t: seq<Entry>, name: string)
    requires UniquePerDomain(s) && UniquePerDomain(t)
    requires forall c: (string, string, string, int) | c.0 == name :: c in Contents(s) <==> c in Contents(t)
    ensures LogicalDomain(s, name) == LogicalDomain(t, name)
  {
    LogicalEntriesOf(s, name);
    LogicalEntriesOf(t, name);
    DomainIdentitiesIncrease(s, name);
    DomainIdentitiesIncrease(t, name);
    IncreasingListingsEqual(LogicalDomain(s, name).entries, LogicalDomain(t, name).entries);
  }

  lemma SameDomainNames(a: seq<Entry>, b: seq<Entry>)
    requires Contents(a) <= Contents(b)
    ensures DomainNames(a) <= DomainNames(b)
  {
    forall name | name in DomainNames(a) ensures name in DomainNames(b) {
      var e :| e in a && e.domain == name;
      assert (e.domain, e.identity, e.hash, e.size) in Contents(b);
    }
  }

  /** The whole plan is determined by what the two snapshots say. */
  lemma PlanIsCanonical(l1: Snapshot, r1: Snapshot, l2: Snapshot, r2: Snapshot, baseline: Option<Baseline>)
    requires l1.id == l2.id && r1.id == r2.id
    requires UniquePerDomain(l1.entries) && UniquePerDomain(l2.entries) && Contents(l1.entries) == Contents(l2.entries)
    requires UniquePerDomain(r1.entries) && UniquePerDomain(r2.entries) && Contents(r1.entries) == Contents(r2.entries)
    ensures Reconcile(l1, r1, baseline) == Reconcile(l2, r2, baseline)
  {
    ViewIsCanonical(l1, l2);
    ViewIsCanonical(r1, r2);
  }

  // ---- rehydration ---------------------------------------------------------------

  /** A desired domain that observed entries can supply, in the order the planner lists it. */
  ghost predicate Suppliable(d: Domain, observed: seq<Entry>) {
    && d.entries != []
    && (forall i, j | 0 <= i < j < |d.entries| :: Le(d.entries[i].identity, d.entries[j].identity))
    && (forall w | w in d.entries :: exists e :: e in observed && MatchesLogical(e, d.name, w))
  }

  lemma ViewIsSuppliable(s: Snapshot, name: string, observed: seq<Entry>)
    requires name in View(s) && forall e | e in s.entries :: e in observed
    ensures Suppliable(View(s)[name], observed)
  {
    DomainEntriesProperties(s.entries, name);
    var d := DomainEntries(s.entries, name);
    var e :| e in s.entries && e.domain == name;
    assert e in d;
    var l := LogicalEntries(d);
    forall i, j | 0 <= i < j < |l| ensures Le(l[i].identity, l[j].identity) {
      assert ByIdentity(d[i], d[j]);
    }
    forall w | w in l ensures exists e :: e in observed && MatchesLogical(e, name, w) {
      var i :| 0 <= i < |l| && l[i] == w;
      assert d[i] in d && MatchesLogical(d[i], name, w);
    }
  }

  lemma {:induction false} FirstMatchFinds(observed: seq<Entry>, name: string, wanted: LogicalEntry)
    requires exists e :: e in observed && MatchesLogical(e, name, wanted)
    ensures FirstMatch(observed, name, wanted).Some?
    ensures MatchesLogical(FirstMatch(observed, name, wanted).value, name, wanted)
    ensures FirstMatch(observed, name, wanted).value in observed
  {
    if !MatchesLogical(observed[0], name, wanted) {
      var e :| e in observed && MatchesLogical(e, name, wanted);
      assert observed == [observed[0]] + observed[1..];
      assert e in observed[1..];
      FirstMatchFinds(observed[1..], name, wanted);
    }
  }

  lemma {:induction false} RehydrateEntriesFinds(observed: seq<Entry>, name: string, wanted: seq<LogicalEntry>)
    requires forall w | w in wanted :: exists e :: e in observed && MatchesLogical(e, name, w)
    ensures RehydrateEntries(observed, name, wanted).Some?
    ensures var r := RehydrateEntries(observed, name, wanted).value;
      |r| == |wanted| && forall i | 0 <= i < |r| :: MatchesLogical(r[i], name, wanted[i])
  {
    if wanted != [] {
      assert wanted[0] in wanted;
      FirstMatchFinds(observed, name, wanted[0]);
      forall w | w in wanted[1..] ensures w in wanted {}
      RehydrateEntriesFinds(observed, name, wanted[1..]);
    }
  }

  lemma {:induction false} FilterWithin(name: string, other: string, s: seq<Entry>)
    requires forall e | e in s :: e.domain == other
    ensures Filter(InDomain(name), s) == if name == other then s else []
  {
    if s != [] {
      assert s == [s[0]] + s[1..];
      assert s[0] in s;
      FilterWithin(name, other, s[1..]);
    }
  }

  lemma {:induction false} FilterNone(name: string, s: seq<Entry>)
    requires forall e | e in s :: e.domain != name
    ensures Filter(InDomain(name), s) == []
  {
    if s != [] {
      assert s == [s[0]] + s[1..];
      assert s[0] in s;
      FilterNone(name, s[1..]);
    }
  }

  lemma RehydratedWithin(observed: seq<Entry>, d: Domain)
    requires Suppliable(d, observed)
    ensures RehydrateEntries(observed, d.name, d.entries).Some?
    ensures forall e | e in RehydrateEntries(observed, d.name, d.entries).value :: e.domain == d.name
  {
    RehydrateEntriesFinds(observed, d.name, d.entries);
    var r := RehydrateEntries(observed, d.name, d.entries).value;
    forall e | e in r ensures e.domain == d.name {
      var i :| 0 <= i < |r| && r[i] == e;
      assert MatchesLogical(r[i], d.name, d.entries[i]);
    }
  }

  lemma DistinctTail(desired: seq<Domain>)
    requires desired != [] && DistinctNames(desired)
    ensures DistinctNames(desired[1..]) && forall d | d in desired[1..] :: d.name != desired[0].name
  {
    forall d | d in desired[1..] ensures d.name != desired[0].name {
      var i :| 0 < i < |desired| && desired[i] == d;
    }
  }

  ghost predicate FromDomains(entries: seq<Entry>, ds: seq<Domain>) {
    forall e | e in entries :: exists d :: d in ds && d.name == e.domain
  }

  /** Filtering rehydrated entries: the first domain's entries come first, the others follow. */
  lemma FilterRehydrated(name: string, first: seq<Entry>, rest: seq<Entry>, d0: Domain, tail: seq<Domain>)
    requires forall e | e in first :: e.domain == d0.name
    requires FromDomains(rest, tail) && forall d | d in tail :: d.name != d0.name
    ensures Filter(InDomain(name), first + rest) == if name == d0.name then first else Filter(InDomain(name), rest)
  {
    FilterConcat(InDomain(name), first, rest);
    FilterWithin(name, d0.name, first);
    if name == d0.name {
      FilterNone(name, rest);
      assert first + [] == first;
    } else {
      assert [] + Filter(InDomain(name), rest) == Filter(InDomain(name), rest);
    }
  }

  lemma FromDomainsConcat(first: seq<Entry>, rest: seq<Entry>, d0: Domain, tail: seq<Domain>)
    requires FromDomains(rest, tail) && forall e | e in first :: e.domain == d0.name
    ensures FromDomains(first + rest, [d0] + tail)
  {
    forall e: Entry | e in first + rest ensures exists d: Domain :: d in [d0] + tail && d.name == e.domain {
      if e in first {
        assert d0 in [d0] + tail;
      } else {
        var d :| d in tail && d.name == e.domain;
        assert d in [d0] + tail;
      }
    }
  }

  /** What rehydration returns: for every desired domain exactly its entries, and nothing else. */
  lemma {:induction false} RehydrateFinds(observed: seq<Entry>, desired: seq<Domain>)
    requires DistinctNames(desired) && forall d | d in desired :: Suppliable(d, observed)
    ensures Rehydrate(observed, desired).Some?
    ensures forall d | d in desired ::
      Some(Filter(InDomain(d.name), Rehydrate(observed, desired).value)) == RehydrateEntries(observed, d.name, d.entries)
    ensures FromDomains(Rehydrate(observed, desired).value, desired)
  {
    if desired != [] {
      var d0, tail := desired[0], desired[1..];
      assert desired == [d0] + tail && d0 in desired;
      RehydratedWithin(observed, d0);
      DistinctTail(desired);
      RehydrateFinds(observed, tail);
      var first, rest := RehydrateEntries(observed, d0.name, d0.entries).value, Rehydrate(observed, tail).value;
      forall d | d in desired
        ensures Some(Filter(InDomain(d.name), first + rest)) == RehydrateEntries(observed, d.name, d.entries)
      {
        FilterRehydrated(d.name, first, rest, d0, tail);
        assert d == d0 || d in tail;
      }
      FromDomainsConcat(first, rest, d0, tail);
    }
  }

  lemma SortKeepsElements(entries: seq<Entry>)
    ensures forall e :: e in Sort(ByIdentity, entries) <==> e in entries
  {
    ByIdentityIsPreorder();
    SortProperties(ByIdentity, entries);
    forall e ensures e in Sort(ByIdentity, entries) <==> e in entries {
      assert e in Sort(ByIdentity, entries) <==> e in multiset(Sort(ByIdentity, entries));
      assert e in entries <==> e in multiset(entries);
    }
  }

  /** Rehydrated and regrouped, a planned side is exactly the planned domains. */
  lemma RegroupedTarget(id: Identity, observed: seq<Entry>, m: map<string, Domain>)
    requires Keyed(m) && forall k | k in m :: Suppliable(m[k], observed)
    ensures Rehydrate(observed, SortedValues(m)).Some?
    ensures View(Snapshot(id, Sort(ByIdentity, Rehydrate(observed, SortedValues(m)).value))) == m
  {
    var desired := SortedValues(m);
    SortedValuesFacts(m);
    RehydrateFinds(observed, desired);
    RegroupedEntries(observed, desired, Rehydrate(observed, desired).value, m);
  }

  lemma RegroupedEntries(observed: seq<Entry>, desired: seq<Domain>, entries: seq<Entry>, m: map<string, Domain>)
    requires forall d | d in desired :: d.name in m && m[d.name] == d
    requires forall k | k in m :: Suppliable(m[k], observed) && m[k].name == k && m[k] in desired
    requires forall d | d in desired :: Some(Filter(InDomain(d.name), entries)) == RehydrateEntries(observed, d.name, d.entries)
    requires FromDomains(entries, desired)
    ensures forall id :: View(Snapshot(id, Sort(ByIdentity, entries))) == m
  {
    var sorted := Sort(ByIdentity, entries);
    SortKeepsElements(entries);
    forall k | k in m ensures k in DomainNames(sorted) && LogicalDomain(sorted, k) == m[k] {
      RegroupedDomain(observed, entries, m[k]);
    }
    forall k | k in DomainNames(sorted) ensures k in m {
      var e :| e in sorted && e.domain == k;
      var d :| d in desired && d.name == k;
    }
  }

  lemma RegroupedDomain(observed: seq<Entry>, entries: seq<Entry>, d: Domain)
    requires Suppliable(d, observed)
    requires Some(Filter(InDomain(d.name), entries)) == RehydrateEntries(observed, d.name, d.entries)
    ensures LogicalDomain(Sort(ByIdentity, entries), d.name) == d
    ensures d.name in DomainNames(Sort(ByIdentity, entries))
  {
    ByIdentityIsPreorder();
    RehydrateEntriesFinds(observed, d.name, d.entries);
    var mine := Filter(InDomain(d.name), entries);
    FilterSort(ByIdentity, InDomain(d.name), entries);
    forall i, j | 0 <= i < j < |mine| ensures ByIdentity(mine[i], mine[j]) {
      assert Logical(mine[i]) == d.entries[i] && Logical(mine[j]) == d.entries[j];
    }
    SortedIsFixed(ByIdentity, mine);
    assert DomainEntries(Sort(ByIdentity, entries), d.name) == mine;
    assert LogicalEntries(mine) == d.entries;
    FilterElements(InDomain(d.name), Sort(ByIdentity, entries));
    assert mine[0] in mine;
  }

  lemma NextIsSuppliable(m: Merge, observed: seq<Entry>)
    requires forall k | k in m.local :: Suppliable(m.local[k], observed)
    requires forall k | k in m.remote :: Suppliable(m.remote[k], observed)
    ensures forall k | k in m.NextLocal() :: Suppliable(m.NextLocal()[k], observed)
    ensures forall k | k in m.NextRemote() :: Suppliable(m.NextRemote()[k], observed)
  {
    forall k | k in m.NextLocal() ensures Suppliable(m.NextLocal()[k], observed) {
      assert m.At(k).local == Lookup(m.local, k) || m.At(k).local == Lookup(m.remote, k);
    }
    forall k | k in m.NextRemote() ensures Suppliable(m.NextRemote()[k], observed) {
      assert m.At(k).remote == Lookup(m.local, k) || m.At(k).remote == Lookup(m.remote, k);
    }
  }

  lemma ViewsAreSuppliable(local: Snapshot, remote: Snapshot, observed: seq<Entry>)
    requires observed == local.entries + remote.entries
    ensures forall k | k in View(local) :: Suppliable(View(local)[k], observed)
    ensures forall k | k in View(remote) :: Suppliable(View(remote)[k], observed)
  {
    forall k | k in View(local) ensures Suppliable(View(local)[k], observed) {
      ViewIsSuppliable(local, k, observed);
    }
    forall k | k in View(remote) ensures Suppliable(View(remote)[k], observed) {
      ViewIsSuppliable(remote, k, observed);
    }
  }

  /** One side's target, given the dictionary whose sorted values are the desired domains. */
  lemma TargetOfSide(plan: Plan, local: Snapshot, remote: Snapshot, side: string, m: map<string, Domain>)
    requires side == "local" || side == "remote"
    requires SortedValues(m) == if side == "local" then plan.desiredLocal else plan.desiredRemote
    requires Keyed(m) && forall k | k in m :: Suppliable(m[k], local.entries + remote.entries)
    ensures Target(plan, local, remote, side).Ok?
    ensures Target(plan, local, remote, side).value.id == local.id
    ensures View(Target(plan, local, remote, side).value) == m
  {
    RegroupedTarget(local.id, local.entries + remote.entries, m);
  }

  lemma TargetsOfMerge(local: Snapshot, remote: Snapshot, m: Merge)
    requires KeyedMerge(m) && m.local == View(local) && m.remote == View(remote)
    ensures var p := m.ThreeWayPlan(local.id);
      var tl, tr := Target(p, local, remote, "local"), Target(p, local, remote, "remote");
      && tl.Ok? && tr.Ok? && tl.value.id == local.id && tr.value.id == local.id
      && View(tl.value) == m.NextLocal() && View(tr.value) == m.NextRemote()
  {
    NextKeyed(m);
    ViewsAreSuppliable(local, remote, local.entries + remote.entries);
    NextIsSuppliable(m, local.entries + remote.entries);
    var p := m.ThreeWayPlan(local.id);
    TargetOfSide(p, local, remote, "local", m.NextLocal());
    TargetOfSide(p, local, remote, "remote", m.NextRemote());
  }

  /** Both targets of a plan can be built from the snapshots it was made from, and regroup to the planned domains. */
  lemma TargetsNeverFail(local: Snapshot, remote: Snapshot, baseline: Option<Baseline>)
    requires Compatible(local, remote, baseline)
    ensures var p := Reconcile(local, remote, baseline).value;
      var tl, tr := Target(p, local, remote, "local"), Target(p, local, remote, "remote");
      && tl.Ok? && tr.Ok? && tl.value.id == local.id && tr.value.id == local.id
      && SnapshotToDomains(tl.value) == p.desiredLocal && SnapshotToDomains(tr.value) == p.desiredRemote
  {
    ReconcileIsThreeWay(local, remote, baseline);
    TargetsOfMerge(local, remote, MergeOf(local, remote, baseline));
  }

  lemma NextBaselineReadsBack(m: Merge, id: Identity)
    requires KeyedMerge(m)
    ensures DomainMap(m.ThreeWayPlan(id).nextBaseline.domains) == m.NextBase()
    ensures Tombstones(m.ThreeWayPlan(id).nextBaseline) == m.NextBuried()
  {
    NextKeyed(m);
    DomainMapOfSortedValues(m.NextBase());
  }

  lemma MergeOfParts(local: Snapshot, remote: Snapshot, b: Baseline, m: Merge)
    requires View(local) == m.local && View(remote) == m.remote
    requires DomainMap(b.domains) == m.base && Tombstones(b) == m.buried
    ensures MergeOf(local, remote, Some(b)) == m
  {
  }

  /** What the following reconcile reads is exactly what this one planned. */
  lemma NextMerge(local: Snapshot, remote: Snapshot, baseline: Option<Baseline>)
    requires Compatible(local, remote, baseline)
    ensures Reconcile(local, remote, baseline).Ok?
    ensures var p := Reconcile(local, remote, baseline).value;
      var tl, tr := Target(p, local, remote, "local"), Target(p, local, remote, "remote");
      && tl.Ok? && tr.Ok? && Compatible(tl.value, tr.value, Some(p.nextBaseline)) && tl.value.id == local.id
      && MergeOf(tl.value, tr.value, Some(p.nextBaseline)) == MergeOf(local, remote, baseline).Next()
  {
    var m := MergeOf(local, remote, baseline);
    ReconcileIsThreeWay(local, remote, baseline);
    TargetsOfMerge(local, remote, m);
    NextBaselineReadsBack(m, local.id);
    var p := m.ThreeWayPlan(local.id);
    MergeOfParts(Target(p, local, remote, "local").value, Target(p, local, remote, "remote").value, p.nextBaseline, m.Next());
  }

  // ---- fixpoint ------------------------------------------------------------------

  ghost predicate DomainsAndTombstonesDisjoint(b: Baseline) {
    forall t | t in b.tombstones :: t !in DomainMap(b.domains)
  }

  lemma NextIsDisjoint(m: Merge)
    requires m.buried !! m.base.Keys
    ensures m.NextBuried() !! m.NextBase().Keys
  {
    forall t | t in m.NextBuried() ensures t !in m.NextBase() {
      NextPointwise(m, t);
      BuriedPointwise(m, t);
    }
  }

  /** Domains and tombstones never overlap in a baseline that a reconcile makes from one where they do not. */
  lemma DisjointnessIsKept(local: Snapshot, remote: Snapshot, baseline: Option<Baseline>)
    requires Compatible(local, remote, baseline)
    requires baseline.Some? ==> DomainsAndTombstonesDisjoint(baseline.value)
    ensures DomainsAndTombstonesDisjoint(Reconcile(local, remote, baseline).value.nextBaseline)
  {
    var m := MergeOf(local, remote, baseline);
    ReconcileIsThreeWay(local, remote, baseline);
    NextBaselineReadsBack(m, local.id);
    assert m.buried !! m.base.Keys;
    NextIsDisjoint(m);
    var b := Reconcile(local, remote, baseline).value.nextBaseline;
    forall t | t in b.tombstones ensures t !in DomainMap(b.domains) {
      assert t in Tombstones(b);
    }
  }

  /** A decision once it is carried out: converged at the planned value, or the very conflict that was there. */
  function Settled(d: Decision, out: Outcome): Decision {
    if d.action == Conflict then d else Decision(d.domain, Converged, out.base, out.base, out.base)
  }

  lemma FixpointOutcome(m: Merge, n: string)
    ensures m.Next().At(n) == m.At(n).(action := if m.At(n).action == Conflict then Conflict else Converged)
  {
    NextPointwise(m, n);
  }

  lemma FixpointNames(m: Merge)
    ensures m.Next().Names() == m.Names()
  {
    forall n | n in m.Names() ensures n in m.Next().Names() { NameStays(m, n); }
  }

  lemma NameStays(m: Merge, n: string)
    requires n in m.Names()
    ensures n in m.NextBase() || n in m.NextBuried() || n in m.NextLocal() || n in m.NextRemote()
  {
    NextPointwise(m, n);
    BuriedPointwise(m, n);
  }

  lemma FixpointMaps(m: Merge)
    ensures m.Next().Next() == m.Next()
  {
    var w := m.Next();
    FixpointNames(m);
    forall n
      ensures Lookup(w.NextLocal(), n) == Lookup(m.NextLocal(), n)
      ensures Lookup(w.NextRemote(), n) == Lookup(m.NextRemote(), n)
      ensures Lookup(w.NextBase(), n) == Lookup(m.NextBase(), n)
      ensures n in w.NextBuried() <==> n in m.NextBuried()
    {
      NextPointwise(w, n);
      NextPointwise(m, n);
      FixpointOutcome(m, n);
      BuriedPointwise(w, n);
      BuriedPointwise(m, n);
    }
    SameLookups(w.NextLocal(), m.NextLocal());
    SameLookups(w.NextRemote(), m.NextRemote());
    SameLookups(w.NextBase(), m.NextBase());
  }

  lemma FixpointDecision(m: Merge, n: string)
    ensures m.Next().DecisionAt(n) == Settled(m.DecisionAt(n), m.At(n))
  {
    NextPointwise(m, n);
    FixpointOutcome(m, n);
  }

  lemma FixpointDecisions(m: Merge)
    ensures var p, q := m.Decisions(SortedKeys(m.Names())), m.Next().Decisions(SortedKeys(m.Next().Names()));
      |p| == |q| && forall i | 0 <= i < |p| :: q[i] == Settled(p[i], m.At(p[i].domain))
  {
    FixpointNames(m);
    var keys := SortedKeys(m.Names());
    forall i | 0 <= i < |keys| ensures m.Next().DecisionAt(keys[i]) == Settled(m.DecisionAt(keys[i]), m.At(keys[i])) {
      FixpointDecision(m, keys[i]);
    }
  }

  /**
   * Planning again from the two targets against the next baseline asks for nothing: the same domains are
   * listed, each converged or in the same conflict, and neither the sides nor the baseline move.
   */
  lemma ReconcileReachesFixpoint(local: Snapshot, remote: Snapshot, baseline: Option<Baseline>)
    requires Compatible(local, remote, baseline)
    ensures var p := Reconcile(local, remote, baseline).value;
      var tl, tr := Target(p, local, remote, "local"), Target(p, local, remote, "remote");
      tl.Ok? && tr.Ok? &&
      var again := Reconcile(tl.value, tr.value, Some(p.nextBaseline));
      && again.Ok?
      && again.value == p.(decisions := again.value.decisions)
      && |again.value.decisions| == |p.decisions|
      && forall i | 0 <= i < |p.decisions| ::
           again.value.decisions[i] == Settled(p.decisions[i], MergeOf(local, remote, baseline).At(p.decisions[i].domain))
  {
    var m := MergeOf(local, remote, baseline);
    NextMerge(local, remote, baseline);
    var p := Reconcile(local, remote, baseline).value;
    var tl := Target(p, local, remote, "local").value;
    var tr := Target(p, local, remote, "remote").value;
    ReconcileIsThreeWay(local, remote, baseline);
    ReconcileIsThreeWay(tl, tr, Some(p.nextBaseline));
    FixpointMaps(m);
    FixpointDecisions(m);
  }

  /** The same effect one domain at a time: this is all that later steps can observe. */
  lemma ReconcileEffect(local: Snapshot, remote: Snapshot, baseline: Option<Baseline>, name: string)
    requires Compatible(local, remote, baseline)
    ensures Reconcile(local, remote, baseline).Ok?
    ensures var p := Reconcile(local, remote, baseline).value;
      var tl, tr := Target(p, local, remote, "local"), Target(p, local, remote, "remote");
      && tl.Ok? && tr.Ok? && p.nextBaseline.id == tl.value.id == tr.value.id == local.id
      && var out := MergeOf(local, remote, baseline).At(name);
         && Lookup(View(tl.value), name) == out.local
         && Lookup(View(tr.value), name) == out.remote
         && Lookup(DomainMap(p.nextBaseline.domains), name) == out.base
  {
    NextMerge(local, remote, baseline);
    NextPointwise(MergeOf(local, remote, baseline), name);
  }
}
