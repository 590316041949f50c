/** The logical-container model and the three-way planner of `save_containers.py`, on values. */
module SaveContainers {
  import opened Options
  import opened Ordering

  datatype Reason = AdapterVersionMismatch | ValidationFailure | InvalidSide

  // ---- data model ----------------------------------------------------------------

  /** The four fields that a snapshot and a baseline must share to be compatible. */
  datatype Identity = Identity(containerId: string, adapterId: string, schemaVersion: int, formatVariant: string)

  datatype Entry = Entry(identity: string, domain: string, hash: string, size: int, locator: string)

  datatype Snapshot = Snapshot(id: Identity, entries: seq<Entry>)

  datatype LogicalEntry = LogicalEntry(identity: string, hash: string, size: int)

  datatype Domain = Domain(name: string, entries: seq<LogicalEntry>)

  datatype Baseline = Baseline(id: Identity, domains: seq<Domain>, tombstones: seq<string>)

  datatype Action = Converged | UseLocal | UseRemote | Conflict

  datatype Decision = Decision(domain: string, action: Action, base: Option<Domain>, local: Option<Domain>, remote: Option<Domain>)

  datatype Plan = Plan(
    containerId: string,
    decisions: seq<Decision>,
    desiredLocal: seq<Domain>,
    desiredRemote: seq<Domain>,
    nextBaseline: Baseline)

  function Lookup<T>(m: map<string, T>, k: string): (r: Option<T>) {
    if k in m then Some(m[k]) else None
  }

  // ---- snapshots grouped by merge domain -----------------------------------------

  predicate ByIdentity(a: Entry, b: Entry) {
    Le(a.identity, b.identity)
  }

  lemma ByIdentityIsPreorder()
    ensures TotalPreorder(ByIdentity)
  {
    forall x: Entry, y: Entry ensures ByIdentity(x, y) || ByIdentity(y, x) {
      LeTotal(x.identity, y.identity);
    }
    forall x: Entry, y: Entry, z: Entry | ByIdentity(x, y) && ByIdentity(y, z) ensures ByIdentity(x, z) {
      LeTransitive(x.identity, y.identity, z.identity);
    }
  }

  function InDomain(name: string): Entry -> bool {
    (e: Entry) => e.domain == name
  }

  function DomainNames(entries: seq<Entry>): (r: set<string>) {
    set e | e in entries :: e.domain
  }

  /** The entries of one merge domain, ordered by identity. */
  function DomainEntries(entries: seq<Entry>, name: string): (r: seq<Entry>) {
    Sort(ByIdentity, Filter(InDomain(name), entries))
  }

  function GroupedByDomain(entries: seq<Entry>): (r: map<string, seq<Entry>>) {
    map name | name in DomainNames(entries) :: DomainEntries(entries, name)
  }

  function Logical(e: Entry): LogicalEntry {
    LogicalEntry(e.identity, e.hash, e.size)
  }

  function LogicalEntries(entries: seq<Entry>): (r: seq<LogicalEntry>) {
    seq(|entries|, i requires 0 <= i < |entries| => Logical(entries[i]))
  }

  function LogicalDomain(entries: seq<Entry>, name: string): (r: Domain) {
    Domain(name, LogicalEntries(DomainEntries(entries, name)))
  }

  /** What a snapshot says of each merge domain; the planner sees nothing else of it. */
  function View(s: Snapshot): (r: map<string, Domain>) {
    map name | name in DomainNames(s.entries) :: LogicalDomain(s.entries, name)
  }

  // ---- dictionaries and their sorted value tuples ------------------------------------

  ghost predicate Keyed(m: map<string, Domain>) {
    forall k | k in m :: m[k].name == k
  }

  function ValuesInOrder(m: map<string, Domain>, keys: seq<string>): (r: seq<Domain>)
    requires forall k | k in keys :: k in m
    ensures |r| == |keys| && forall i | 0 <= i < |keys| :: r[i] == m[keys[i]]
  {
    if keys == [] then [] else [m[keys[0]]] + ValuesInOrder(m, keys[1..])
  }

  /** `tuple(m[key] for key in sorted(m))` */
  function SortedValues(m: map<string, Domain>): (r: seq<Domain>) {
    ValuesInOrder(m, SortedKeys(m.Keys))
  }

  function SnapshotToDomains(s: Snapshot): (r: seq<Domain>) {
    SortedValues(View(s))
  }

  /** A dictionary by domain name; a later duplicate replaces an earlier one. */
  function DomainMap(domains: seq<Domain>): (r: map<string, Domain>)
    ensures Keyed(r)
  {
    if domains == [] then map[]
    else
      var last := domains[|domains| - 1];
      DomainMap(domains[..|domains| - 1])[last.name := last]
  }

  lemma {:induction false} DomainMapLookup(domains: seq<Domain>)
    requires DistinctNames(domains)
    ensures forall d | d in domains :: d.name in DomainMap(domains) && DomainMap(domains)[d.name] == d
    ensures forall k | k in DomainMap(domains) :: DomainMap(domains)[k] in domains
  {
    if domains != [] {
      var init, last := domains[..|domains| - 1], domains[|domains| - 1];
      DomainMapLookup(init);
      assert domains == init + [last];
      forall d | d in domains ensures d.name in DomainMap(domains) && DomainMap(domains)[d.name] == d {
        if d != last {
          assert d in init;
        }
      }
    }
  }

  ghost predicate DistinctNames(ds: seq<Domain>) {
    forall i, j | 0 <= i < j < |ds| :: ds[i].name != ds[j].name
  }

  /** The facts about a dictionary's sorted values that readers of them use. */
  lemma SortedValuesFacts(m: map<string, Domain>)
    requires Keyed(m)
    ensures DistinctNames(SortedValues(m))
    ensures forall d | d in SortedValues(m) :: d.name in m && m[d.name] == d
    ensures forall k | k in m :: m[k] in SortedValues(m)
  {
    var desired, keys := SortedValues(m), SortedKeys(m.Keys);
    forall i, j | 0 <= i < j < |desired| ensures desired[i].name != desired[j].name {
      assert Lt(keys[i], keys[j]) && keys[i] in keys && keys[j] in keys;
    }
    forall d | d in desired ensures d.name in m && m[d.name] == d {
      var i :| 0 <= i < |desired| && desired[i] == d;
      assert keys[i] in keys;
    }
    forall k | k in m ensures m[k] in desired {
      assert k in keys;
      var i :| 0 <= i < |keys| && keys[i] == k;
      assert desired[i] == m[k];
    }
  }

  /** Writing a dictionary out in key order and reading it back gives it back. */
  lemma DomainMapOfSortedValues(m: map<string, Domain>)
    requires Keyed(m)
    ensures DomainMap(SortedValues(m)) == m
  {
    SortedValuesFacts(m);
    DomainMapLookup(SortedValues(m));
    var r := DomainMap(SortedValues(m));
    forall k | k in m ensures k in r && r[k] == m[k] { assert m[k] in SortedValues(m); }
    forall k | k in r ensures k in m { assert r[k] in SortedValues(m); }
  }

  // ---- one domain: the merge rule --------------------------------------------------

  /** What a rule decides for one domain: the action and the value each side and the baseline get. */
  datatype Outcome = Outcome(action: Action, local: Option<Domain>, remote: Option<Domain>, base: Option<Domain>)

  /** The three-way rule (save_containers.py:372-406). */
  function ThreeWay(base: Option<Domain>, local: Option<Domain>, remote: Option<Domain>): (r: Outcome) {
    if local == remote then Outcome(Converged, local, remote, local)
    else if local == base then Outcome(UseRemote, remote, remote, remote)
    else if remote == base then Outcome(UseLocal, local, local, local)
    else Outcome(Conflict, local, remote, base)
  }

  /** The rule without an ancestor (save_containers.py:323-345). */
  function Bootstrap(local: Option<Domain>, remote: Option<Domain>): (r: Outcome) {
    if local == remote then Outcome(Converged, local, remote, local)
    else if remote == None then Outcome(UseLocal, local, local, local)
    else if local == None then Outcome(UseRemote, remote, remote, remote)
    else Outcome(Conflict, local, remote, None)
  }

  // ---- the whole plan ------------------------------------------------------------

  /** The dictionaries a plan is computed from: baseline domains and tombstones, local and remote domains. */
  datatype Merge = Merge(base: map<string, Domain>, buried: set<string>, local: map<string, Domain>, remote: map<string, Domain>) {

    function Names(): (r: set<string>) {
      base.Keys + buried + local.Keys + remote.Keys
    }

    function At(name: string): (r: Outcome) {
      ThreeWay(Lookup(base, name), Lookup(local, name), Lookup(remote, name))
    }

    function NextLocal(): (r: map<string, Domain>) {
      map n | n in Names() && At(n).local.Some? :: At(n).local.value
    }

    function NextRemote(): (r: map<string, Domain>) {
      map n | n in Names() && At(n).remote.Some? :: At(n).remote.value
    }

    function NextBase(): (r: map<string, Domain>) {
      map n | n in Names() && At(n).base.Some? :: At(n).base.value
    }

    /** A domain known to be absent: a conflict leaves the tombstones alone, any other outcome settles them. */
    predicate BuriedAfter(name: string) {
      if At(name).action == Conflict then name in buried else At(name).base == None
    }

    function NextBuried(): (r: set<string>) {
      set n | n in Names() && BuriedAfter(n)
    }

    /** The dictionaries the following reconcile starts from if nothing else happens. */
    function Next(): (r: Merge) {
      Merge(NextBase(), NextBuried(), NextLocal(), NextRemote())
    }

    function DecisionAt(name: string): (r: Decision) {
      Decision(name, At(name).action, Lookup(base, name), Lookup(local, name), Lookup(remote, name))
    }

    function Decisions(keys: seq<string>): (r: seq<Decision>)
      ensures |r| == |keys| && forall i | 0 <= i < |keys| :: r[i] == DecisionAt(keys[i])
    {
      if keys == [] then [] else [DecisionAt(keys[0])] + Decisions(keys[1..])
    }

    function ThreeWayPlan(id: Identity): (r: Plan) {
      Plan(
        id.containerId,
        Decisions(SortedKeys(Names())),
        SortedValues(NextLocal()),
        SortedValues(NextRemote()),
        Baseline(id, SortedValues(NextBase()), SortedKeys(NextBuried())))
    }
  }

  function BootstrapAt(local: map<string, Domain>, remote: map<string, Domain>, name: string): (r: Outcome) {
    Bootstrap(Lookup(local, name), Lookup(remote, name))
  }

  function BootstrapDecisions(local: map<string, Domain>, remote: map<string, Domain>, keys: seq<string>): (r: seq<Decision>)
    ensures |r| == |keys|
    ensures forall i | 0 <= i < |keys| ::
      r[i] == Decision(keys[i], BootstrapAt(local, remote, keys[i]).action, None, Lookup(local, keys[i]), Lookup(remote, keys[i]))
  {
    if keys == [] then []
    else
      [Decision(keys[0], BootstrapAt(local, remote, keys[0]).action, None, Lookup(local, keys[0]), Lookup(remote, keys[0]))]
      + BootstrapDecisions(local, remote, keys[1..])
  }

  function BootstrapPlan(id: Identity, local: map<string, Domain>, remote: map<string, Domain>): (r: Plan) {
    var names := local.Keys + remote.Keys;
    Plan(
      id.containerId,
      BootstrapDecisions(local, remote, SortedKeys(names)),
      SortedValues(map n | n in names && BootstrapAt(local, remote, n).local.Some? :: BootstrapAt(local, remote, n).local.value),
      SortedValues(map n | n in names && BootstrapAt(local, remote, n).remote.Some? :: BootstrapAt(local, remote, n).remote.value),
      Baseline(
        id,
        SortedValues(map n | n in names && BootstrapAt(local, remote, n).base.Some? :: BootstrapAt(local, remote, n).base.value),
        []))
  }

  predicate Compatible(local: Snapshot, remote: Snapshot, baseline: Option<Baseline>) {
    local.id == remote.id && (baseline.Some? ==> baseline.value.id == local.id)
  }

  function Tombstones(baseline: Baseline): set<string> {
    set t | t in baseline.tombstones
  }

  /** `plan_container_reconcile` */
  function Reconcile(local: Snapshot, remote: Snapshot, baseline: Option<Baseline>): (r: Result<Plan, Reason>) {
    if !Compatible(local, remote, baseline) then Err(AdapterVersionMismatch)
    else if baseline == None then Ok(BootstrapPlan(local.id, View(local), View(remote)))
    else Ok(Merge(DomainMap(baseline.value.domains), Tombstones(baseline.value), View(local), View(remote)).ThreeWayPlan(local.id))
  }

  // ---- rehydration -----------------------------------------------------------------

  predicate MatchesLogical(e: Entry, name: string, wanted: LogicalEntry) {
    e.domain == name && e.identity == wanted.identity && e.hash == wanted.hash && e.size == wanted.size
  }

  function FirstMatch(observed: seq<Entry>, name: string, wanted: LogicalEntry): (r: Option<Entry>) {
    if observed == [] then None
    else if MatchesLogical(observed[0], name, wanted) then Some(observed[0])
    else FirstMatch(observed[1..], name, wanted)
  }

  function RehydrateEntries(observed: seq<Entry>, name: string, wanted: seq<LogicalEntry>): (r: Option<seq<Entry>>) {
    if wanted == [] then Some([])
    else
      var first := FirstMatch(observed, name, wanted[0]);
      var rest := RehydrateEntries(observed, name, wanted[1..]);
      if first == None || rest == None then None else Some([first.value] + rest.value)
  }

  function Rehydrate(observed: seq<Entry>, desired: seq<Domain>): (r: Option<seq<Entry>>) {
    if desired == [] then Some([])
    else
      var first := RehydrateEntries(observed, desired[0].name, desired[0].entries);
      var rest := Rehydrate(observed, desired[1..]);
      if first == None || rest == None then None else Some(first.value + rest.value)
  }

  /** `target_snapshot` */
  function Target(plan: Plan, local: Snapshot, remote: Snapshot, side: string): (r: Result<Snapshot, Reason>) {
    if side != "local" && side != "remote" then Err(InvalidSide)
    else
      var desired := if side == "local" then plan.desiredLocal else plan.desiredRemote;
      var entries := Rehydrate(local.entries + remote.entries, desired);
      if entries == None then Err(ValidationFailure)
      else Ok(Snapshot(local.id, Sort(ByIdentity, entries.value)))
  }
}
