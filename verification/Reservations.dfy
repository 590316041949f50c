/** `ReservationLease`: a volatile promise of future growth and the durable row that lags behind it. */
module Reservations {
  import opened Options

  /** `_UPDATE_GRANULARITY`: 256 MiB. */
  const UPDATE_GRANULARITY := 256 * 1024 * 1024

  function Max(a: int, b: int): int {
    if a < b then b else a
  }

  /** The test of `consume_growth` (cache_coordination.py:113-116), negated: the lag must be written out now. */
  predicate MustPersist(reserved: int, persisted: int) {
    persisted - reserved >= UPDATE_GRANULARITY || reserved == 0
  }

  // ---- one lease as a value -------------------------------------------------------------

  /** `_reserved`, `_last_persisted`, and the durable row, which is absent once deleted. */
  datatype Lease = Lease(reserved: int, persisted: int, row: Option<int>)

  datatype Op = Consume(bytes: int) | Protect(bytes: int)

  function Persisted(l: Lease): (r: Lease) {
    Lease(l.reserved, l.reserved, if l.row == None then None else Some(l.reserved))
  }

  function Shrunk(l: Lease, bytes: int): int {
    Max(0, l.reserved - Max(0, bytes))
  }

  function Do(l: Lease, op: Op): (r: Lease) {
    match op
    case Consume(n) =>
      var shrunk := l.(reserved := Shrunk(l, n));
      if MustPersist(shrunk.reserved, l.persisted) then Persisted(shrunk) else shrunk
    case Protect(n) =>
      if n <= 0 then l else Persisted(l.(reserved := l.reserved + n))
  }

  function Admitted(requested: nat): Lease {
    Lease(requested, requested, Some(requested))
  }

  function DoAll(l: Lease, ops: seq<Op>): (r: Lease) {
    if ops == [] then l else Do(DoAll(l, ops[..|ops| - 1]), ops[|ops| - 1])
  }

  /** Bytes added to the promise and bytes reported as written, over a sequence of calls. */
  function TotalProtected(ops: seq<Op>): (r: nat) {
    if ops == [] then 0
    else TotalProtected(ops[..|ops| - 1]) + match ops[|ops| - 1] case Protect(n) => Max(0, n) case Consume(_) => 0
  }

  function TotalConsumed(ops: seq<Op>): (r: nat) {
    if ops == [] then 0
    else TotalConsumed(ops[..|ops| - 1]) + match ops[|ops| - 1] case Consume(n) => Max(0, n) case Protect(_) => 0
  }

  /** Row updates that a `consume_growth` call makes while something is still reserved. */
  function LagWrites(l: Lease, ops: seq<Op>): (r: nat) {
    if ops == [] then 0
    else
      var before, op := DoAll(l, ops[..|ops| - 1]), ops[|ops| - 1];
      LagWrites(l, ops[..|ops| - 1])
      + if op.Consume? && Shrunk(before, op.bytes) != 0 && MustPersist(Shrunk(before, op.bytes), before.persisted) then 1 else 0
  }

  /** The promise is never negative, never above the row, and the row is never a granule or more above the promise. */
  ghost predicate Conservative(l: Lease) {
    && l.row == Some(l.persisted)
    && 0 <= l.reserved <= l.persisted
    && l.persisted - l.reserved < 0x1000_0000
    && (l.reserved == 0 ==> l.persisted == 0)
  }

  /** After any calls the durable row covers the promise, and the promise covers what is still owed. */
  lemma {:induction false} RowCoversPromise(requested: nat, ops: seq<Op>)
    ensures Conservative(DoAll(Admitted(requested), ops))
    ensures DoAll(Admitted(requested), ops).reserved >= requested + TotalProtected(ops) - TotalConsumed(ops)
    ensures DoAll(Admitted(requested), ops).reserved <= requested + TotalProtected(ops)
  {
    if ops != [] { RowCoversPromise(requested, ops[..|ops| - 1]); }
  }

  /** What the calls from some point on add to the promise, on balance. */
  function Net(ops: seq<Op>, from: nat): int
    requires from <= |ops|
  {
    TotalProtected(ops[from..]) - TotalConsumed(ops[from..])
  }

  lemma NetOfOneMore(ops: seq<Op>, from: nat)
    requires from < |ops|
    ensures Net(ops, from) == Net(ops[..|ops| - 1], from) +
      match ops[|ops| - 1] case Protect(n) => Max(0, n) case Consume(n) => -Max(0, n)
  {
    assert ops[from..][..|ops| - 1 - from] == ops[..|ops| - 1][from..];
  }

  /** Where the promise comes from: the admission and every call, or only the calls since it was last used up. */
  ghost predicate PromiseSince(requested: nat, ops: seq<Op>, reserved: int, from: int) {
    -1 <= from <= |ops| && reserved == if from == -1 then requested + Net(ops, 0) else Net(ops, from)
  }

  /**
   * The promise exactly: it is the greatest balance of the calls since any point, or since the admission with the bytes
   * admitted. Consuming more than was promised is forgotten, and nothing else is.
   */
  lemma {:induction false} PromiseIsGreatestBalance(requested: nat, ops: seq<Op>) returns (from: int)
    ensures var r := DoAll(Admitted(requested), ops).reserved;
      && PromiseSince(requested, ops, r, from)
      && r >= requested + Net(ops, 0) && forall k | 0 <= k <= |ops| :: r >= Net(ops, k)
  {
    assert ops[|ops|..] == [];
    if ops == [] {
      from := -1;
    } else {
      var n := |ops| - 1;
      from := PromiseIsGreatestBalance(requested, ops[..n]);
      forall k | 0 <= k <= n ensures Net(ops, k) == Net(ops[..n], k) + match ops[n] case Protect(b) => Max(0, b) case Consume(b) => -Max(0, b) {
        NetOfOneMore(ops, k);
      }
      assert ops[..n][n..] == [];
      assert Net(ops, n + 1) == 0 && Net(ops[..n], n) == 0;
      var r := DoAll(Admitted(requested), ops).reserved;
      if !PromiseSince(requested, ops, r, from) { from := n + 1; }
    }
  }

  /** Lagging writes are paid for: each one accounts for a whole granule of promised bytes. */
  lemma {:induction false} LagWritesAreRare(requested: nat, ops: seq<Op>)
    ensures var l := DoAll(Admitted(requested), ops);
      LagWrites(Admitted(requested), ops) * 0x1000_0000 + l.persisted <= requested + TotalProtected(ops)
  {
    if ops != [] {
      LagWritesAreRare(requested, ops[..|ops| - 1]);
      RowCoversPromise(requested, ops[..|ops| - 1]);
    }
  }

  /** The amortised bound itself. */
  lemma LagWriteBound(requested: nat, ops: seq<Op>)
    ensures LagWrites(Admitted(requested), ops) <= (requested + TotalProtected(ops)) / 0x1000_0000
  {
    LagWritesAreRare(requested, ops);
    RowCoversPromise(requested, ops);
  }

  // ---- the object ----------------------------------------------------------------------

  /** The table `cache_reservations`, by row id. */
  class ReservationTable {
    var rows: map<string, int>

    constructor ()
      ensures rows == map[]
    {
      rows := map[];
    }
  }

  class ReservationLease {
    const table: ReservationTable
    const id: string
    var reserved: int
    var lastPersisted: int
    var released: bool
    var lockHeld: bool

    /** What the object and its row amount to. */
    ghost function View(): Lease
      reads this, table
    {
      Lease(reserved, lastPersisted, if id in table.rows then Some(table.rows[id]) else None)
    }

    /** The lease returned by `admit`: its row has been inserted and its liveness lock taken. */
    constructor (table: ReservationTable, id: string, reservedBytes: nat)
      requires id in table.rows && table.rows[id] == reservedBytes
      ensures this.table == table && this.id == id && !released && lockHeld
      ensures View() == Admitted(reservedBytes)
    {
      this.table, this.id := table, id;
      reserved, lastPersisted, released, lockHeld := reservedBytes, reservedBytes, false, true;
    }

    method PersistReserved()
      modifies this`lastPersisted, table
      ensures View() == Persisted(old(View()))
      ensures table.rows == if id in old(table.rows) then old(table.rows)[id := reserved] else old(table.rows)
    {
      if id in table.rows {
        table.rows := table.rows[id := reserved];
      }
      lastPersisted := reserved;
    }

    method ConsumeGrowth(bytesWritten: int)
      modifies this`reserved, this`lastPersisted, table
      ensures View() == Do(old(View()), Consume(bytesWritten))
      ensures forall k | k != id :: (k in table.rows <==> k in old(table.rows)) && (k in table.rows ==> table.rows[k] == old(table.rows)[k])
    {
      reserved := Max(0, reserved - Max(0, bytesWritten));
      if lastPersisted - reserved < UPDATE_GRANULARITY && reserved != 0 {
        return;
      }
      PersistReserved();
    }

    method ProtectRemoval(bytesToRemove: int)
      modifies this`reserved, this`lastPersisted, table
      ensures View() == Do(old(View()), Protect(bytesToRemove))
      ensures forall k | k != id :: (k in table.rows <==> k in old(table.rows)) && (k in table.rows ==> table.rows[k] == old(table.rows)[k])
    {
      var amount := Max(0, bytesToRemove);
      if amount == 0 {
        return;
      }
      reserved := reserved + amount;
      PersistReserved();
    }

    /** The first call deletes the row and then drops the lock; later calls change nothing. */
    method Release()
      modifies this`released, this`lockHeld, table
      ensures released
      ensures old(released) ==> table.rows == old(table.rows) && lockHeld == old(lockHeld)
      ensures !old(released) ==> table.rows == old(table.rows) - {id} && !lockHeld && View().row == None
    {
      if released {
        return;
      }
      released := true;
      table.rows := table.rows - {id};
      lockHeld := false;
    }
  }
}
