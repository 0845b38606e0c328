/** The escrow and dispute tables that every writer shares. */
module EscrowTables {
  type Id = nat
  type Address = string
  type Time = int

  datatype Option<+T> = None | Some(value: T)

  datatype State =
    | Created | Funded | Shipped | Delivered | Disputed
    | Completed | Released | Refunded | Cancelled

  predicate Terminal(s: State) {
    s.Completed? || s.Released? || s.Refunded? || s.Cancelled?
  }

  /** Distance of a state from creation; every terminal state is at the top. */
  function Rank(s: State): nat {
    match s
    case Created => 0
    case Funded => 1
    case Shipped => 2
    case Delivered => 3
    case Disputed => 4
    case _ => 5
  }

  datatype Escrow = Escrow(
    contractId: Option<nat>,
    buyer: Address,
    vendor: Address,
    itemRef: string,
    amount: int,
    currency: string,
    state: State,
    trackingId: Option<string>,
    shippedAt: Option<Time>,
    deliveredAt: Option<Time>,
    deliveryRecordedAt: Option<Time>,
    autoReleaseSubmittedAt: Option<Time>,
    autoReleaseTxHash: Option<string>,
    cancelledAt: Option<Time>)

  datatype DisputeStatus = Open | UnderReview | Resolved | DisputeCancelled | DisputeAbandoned

  datatype Dispute = Dispute(
    escrowId: Id, reason: string, status: DisputeStatus, resolvedAt: Option<Time>)

  /** `order` lists escrow ids oldest first; `disputes` is in insertion order. */
  datatype Db = Db(escrows: map<Id, Escrow>, order: seq<Id>, disputes: seq<Dispute>)

  /** Primary keys: a row is created once. */
  predicate RowsOnce(db: Db) { forall i, j :: 0 <= i < j < |db.order| ==> db.order[i] != db.order[j] }

  function PutRow(db: Db, id: Id, row: Escrow): Db {
    db.(escrows := db.escrows[id := row])
  }

  /** The first dispute row of an escrow, as `findFirst({ where: { escrowId } })`. */
  function FindDispute(ds: seq<Dispute>, id: Id, from: nat := 0): (r: Option<nat>)
    requires from <= |ds|
    ensures r.Some? ==> from <= r.value < |ds| && ds[r.value].escrowId == id
    ensures forall j :: from <= j < (if r.Some? then r.value else |ds|) ==> ds[j].escrowId != id
    decreases |ds| - from
  {
    if from == |ds| then None
    else if ds[from].escrowId == id then Some(from)
    else FindDispute(ds, id, from + 1)
  }

  predicate Pending(d: Dispute) {
    d.status.Open? || d.status.UnderReview?
  }

  /** The first dispute of an escrow still awaiting a decision. */
  function FindPending(ds: seq<Dispute>, id: Id, from: nat := 0): (r: Option<nat>)
    requires from <= |ds|
    ensures r.Some? ==> from <= r.value < |ds| && ds[r.value].escrowId == id && Pending(ds[r.value])
    ensures forall j :: from <= j < (if r.Some? then r.value else |ds|) ==>
              !(ds[j].escrowId == id && Pending(ds[j]))
    decreases |ds| - from
  {
    if from == |ds| then None
    else if ds[from].escrowId == id && Pending(ds[from]) then Some(from)
    else FindPending(ds, id, from + 1)
  }

  predicate HasDispute(db: Db, id: Id) {
    FindDispute(db.disputes, id).Some?
  }

  predicate HasResolvedDispute(db: Db, id: Id) {
    var i := FindDispute(db.disputes, id);
    i.Some? && db.disputes[i.value].status.Resolved?
  }

  /** Marks row `i` of the dispute table resolved. */
  function ResolveAt(db: Db, i: nat, now: Time): Db
    requires i < |db.disputes|
  {
    db.(disputes := db.disputes[i := db.disputes[i].(status := Resolved, resolvedAt := Some(now))])
  }

  /** `escrowId` is unique in the dispute table, so a second insert is rejected. */
  function InsertDispute(db: Db, id: Id, reason: string): Option<Db> {
    if HasDispute(db, id) then None
    else Some(db.(disputes := db.disputes + [Dispute(id, reason, Open, None)]))
  }

  predicate RowAdvances(r: Escrow, s: Escrow) {
    && (s.contractId, s.buyer, s.vendor, s.itemRef, s.amount, s.currency)
       == (r.contractId, r.buyer, r.vendor, r.itemRef, r.amount, r.currency)
    && (s.state == r.state || Rank(s.state) > Rank(r.state))
  }

  /**
   * What every writer guarantees of the tables: rows stay and keep their terms, new rows
   * are not mapped to the contract, a state changes only to one of higher rank, and a
   * dispute row stays the first row of its escrow and is never re-opened once resolved.
   */
  ghost predicate Advances(a: Db, b: Db) {
    && a.order <= b.order
    && (forall i :: |a.order| <= i < |b.order| ==> b.order[i] !in a.escrows)
    && (forall id :: id in a.escrows ==> id in b.escrows && RowAdvances(a.escrows[id], b.escrows[id]))
    && (forall id :: id in b.escrows && id !in a.escrows ==> b.escrows[id].contractId.None?)
    && (forall id :: HasDispute(a, id) ==> FindDispute(b.disputes, id) == FindDispute(a.disputes, id))
    && (forall id :: HasResolvedDispute(a, id) ==> HasResolvedDispute(b, id))
  }

  lemma AdvancesSelf(db: Db)
    ensures Advances(db, db)
  {}

  lemma AdvancesTransitive(a: Db, b: Db, c: Db)
    requires Advances(a, b) && Advances(b, c)
    ensures Advances(a, c)
  {
    forall id | id in a.escrows ensures id in c.escrows && RowAdvances(a.escrows[id], c.escrows[id]) {
      assert RowAdvances(a.escrows[id], b.escrows[id]) && RowAdvances(b.escrows[id], c.escrows[id]);
    }
    forall id | id in c.escrows && id !in a.escrows ensures c.escrows[id].contractId.None? {
      if id in b.escrows { assert RowAdvances(b.escrows[id], c.escrows[id]); }
    }
    forall id | HasDispute(a, id) ensures FindDispute(c.disputes, id) == FindDispute(a.disputes, id) {
      assert HasDispute(b, id);
    }
  }

  lemma PutRowAdvances(db: Db, id: Id, row: Escrow)
    requires if id in db.escrows then RowAdvances(db.escrows[id], row) else row.contractId.None?
    ensures Advances(db, PutRow(db, id, row))
  {}

  lemma InsertDisputeAdvances(db: Db, id: Id, reason: string)
    requires !HasDispute(db, id)
    ensures Advances(db, InsertDispute(db, id, reason).value)
    ensures HasDispute(InsertDispute(db, id, reason).value, id)
    ensures FindDispute(InsertDispute(db, id, reason).value.disputes, id) == Some(|db.disputes|)
  {
    var c := InsertDispute(db, id, reason).value;
    assert forall j :: 0 <= j < |db.disputes| ==> c.disputes[j] == db.disputes[j];
    assert c.disputes[|db.disputes|].escrowId == id;
    forall k | HasDispute(db, k) ensures FindDispute(c.disputes, k) == FindDispute(db.disputes, k) {
      assert c.disputes[FindDispute(db.disputes, k).value].escrowId == k;
    }
  }

  lemma ResolveAtAdvances(db: Db, i: nat, now: Time)
    requires i < |db.disputes|
    ensures Advances(db, ResolveAt(db, i, now))
    ensures forall id :: FindDispute(ResolveAt(db, i, now).disputes, id) == FindDispute(db.disputes, id)
  {
    var c := ResolveAt(db, i, now);
    assert forall j :: 0 <= j < |db.disputes| ==> c.disputes[j].escrowId == db.disputes[j].escrowId;
    forall k ensures FindDispute(c.disputes, k) == FindDispute(db.disputes, k) {
      var x, y := FindDispute(c.disputes, k), FindDispute(db.disputes, k);
      if x.Some? { assert db.disputes[x.value].escrowId == k; }
      if y.Some? { assert c.disputes[y.value].escrowId == k; }
    }
  }
}
