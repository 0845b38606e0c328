/**
 * The entry points that change escrows, as they run: each reads a row, checks it and makes its writes
 * one after the other. Where there is more than one, `budget` is how many the database accepts before
 * the process dies, and the lemmas say what no later run can repair.
 *
 * Models src/escrow/escrow.service.ts, src/escrow/buyer-dispute.service.ts,
 * src/admin/dispute/dispute.service.ts and the shipment step of src/workers/tracking-poll.worker.ts.
 */
module EscrowWriters {
  import opened EscrowTables
  import opened ChainSync
  import opened Lifecycle
  import opened WriterEffects

  /**
   * A dispute row without the DISPUTED state, as a crash between the two writes leaves it, is never
   * repaired by opening the dispute again: the second insert is refused in every later run.
   */
  lemma HalfOpenedNeverOpens(db: Db, acts: seq<Action>, id: Id, caller: Address, admin: Address, reason: string)
    requires HasDispute(db, id)
    ensures var late := Run(db, acts);
            HasDispute(late, id) && Step(late, OpenDispute(id, caller, admin, reason)).0 == late
  {
    var late := Run(db, acts);
    RunAdvances(db, acts);
    hide Run;
  }

  // ── Delivery recorded, escrow not delivered ───────────────────────────────

  /** The delivery claim is set although the escrow is not DELIVERED. */
  predicate ClaimStuck(db: Db, id: Id) {
    id in db.escrows && db.escrows[id].deliveryRecordedAt.Some? && !db.escrows[id].state.Delivered?
  }

  lemma SyncUnknown(db: Db, e: ChainEvent, now: Time)
    requires e.escrowId !in db.escrows
    ensures Sync(db, e, now).0 == db
  {}

  lemma SyncKeepsClaimStuck(db: Db, e: ChainEvent, now: Time, id: Id)
    requires ClaimStuck(db, id)
    ensures ClaimStuck(Sync(db, e, now).0, id)
  {
    hide Sync;
    if e.escrowId !in db.escrows {
      SyncUnknown(db, e, now);
    } else if Settled(db, e) {
      SettledExactly(db, e);
    } else {
      SyncReaches(db, e, now);
    }
  }

  lemma RowStepKeepsClaimStuck(db: Db, a: Action, id: Id)
    requires !a.Chain? && !a.Create? && !a.Pay? && ClaimStuck(db, id)
    ensures ClaimStuck(RowStep(db, a).0, id)
  {}

  lemma StepKeepsClaimStuck(db: Db, a: Action, id: Id)
    requires ClaimStuck(db, id)
    ensures ClaimStuck(Step(db, a).0, id)
  {
    if a.Chain? {
      ChainStepIsSync(db, a.event, a.now);
      SyncKeepsClaimStuck(db, a.event, a.now, id);
    } else if a.Pay? {
      FundAllAdvances(db, Lifecycle.Funded(db, a.payment));
    } else if !a.Create? {
      RowStepKeepsClaimStuck(db, a, id);
    }
  }

  lemma {:induction false} RunKeepsClaimStuck(db: Db, acts: seq<Action>, id: Id)
    requires ClaimStuck(db, id)
    ensures ClaimStuck(Run(db, acts), id)
    decreases |acts|
  {
    hide Step, ClaimStuck;
    if acts != [] {
      StepKeepsClaimStuck(db, acts[0], id);
      RunKeepsClaimStuck(Step(db, acts[0]).0, acts[1..], id);
    }
  }

  /** `claimDelivery`. */
  function ClaimedDelivery(db: Db, id: Id, now: Time): (next: Db)
    requires id in db.escrows
    ensures OnlyRow(db, next, id, db.escrows[id].(deliveryRecordedAt := Some(now)))
  {
    PutRow(db, id, db.escrows[id].(deliveryRecordedAt := Some(now)))
  }

  /** Cut between `claimDelivery` and `markDelivered`, an escrow is delivered by no run of any writers. */
  lemma CutDeliveryNeverDelivers(db: Db, id: Id, now: Time, acts: seq<Action>)
    requires id in db.escrows && db.escrows[id].state.Shipped?
    ensures var late := Run(ClaimedDelivery(db, id, now), acts);
            id in late.escrows && !late.escrows[id].state.Delivered? && late.escrows[id].deliveryRecordedAt.Some?
  {
    RunKeepsClaimStuck(ClaimedDelivery(db, id, now), acts, id);
  }

  // ── Dispute resolved, escrow still disputed ───────────────────────────────

  /** The dispute write of a resolution, without the write to the row. */
  function ResolvedOnly(db: Db, id: Id, now: Time): (next: Db)
    ensures next.escrows == db.escrows && next.order == db.order
    ensures ResolvesFirst(db.disputes, next.disputes, id, now)
  {
    var i := FindPending(db.disputes, id);
    FirstPending(db.disputes, id);
    if i.Some? then ResolveAt(db, i.value, now) else db
  }

  /** The step settles a disputed escrow whose dispute row is already resolved. */
  predicate SettlesCut(db: Db, a: Action, id: Id)
    requires id in db.escrows
  {
    || (a.Resolve? && a.id == id && a.chainOk && db.escrows[id].contractId.Some?)
    || (a.Chain? && a.event.escrowId == id
        && !a.event.kind.EscrowFunded? && !a.event.kind.EscrowShipped? && !a.event.kind.DisputeRaised?
        && !a.event.kind.DisputeResolved? && !a.event.kind.UnknownKind?)
  }

  predicate StillDisputed(db: Db, id: Id) { id in db.escrows && db.escrows[id].state.Disputed? }

  lemma SyncLeavesExactly(db: Db, e: ChainEvent, now: Time, id: Id)
    requires StillDisputed(db, id) && HasResolvedDispute(db, id)
    ensures StillDisputed(Sync(db, e, now).0, id) <==> !SettlesCut(db, Chain(e, now), id)
  {
    hide Sync;
    if e.escrowId !in db.escrows {
      SyncUnknown(db, e, now);
    } else if Settled(db, e) {
      SettledExactly(db, e);
    } else {
      SyncReaches(db, e, now);
    }
  }

  lemma RowStepLeavesExactly(db: Db, a: Action, id: Id)
    requires !a.Chain? && !a.Create? && !a.Pay? && StillDisputed(db, id)
    ensures StillDisputed(RowStep(db, a).0, id) <==> !SettlesCut(db, a, id)
  {}

  lemma LeavesExactly(db: Db, a: Action, id: Id)
    requires StillDisputed(db, id) && HasResolvedDispute(db, id)
    ensures StillDisputed(Step(db, a).0, id) <==> !SettlesCut(db, a, id)
  {
    if a.Chain? {
      ChainStepIsSync(db, a.event, a.now);
      SyncLeavesExactly(db, a.event, a.now, id);
    } else if a.Pay? {
      FundAllAdvances(db, Lifecycle.Funded(db, a.payment));
    } else if !a.Create? {
      RowStepLeavesExactly(db, a, id);
    }
  }

  lemma CutResolveStays(db: Db, id: Id, now: Time, acts: seq<Action>)
    requires DisputesConsistent(db) && StillDisputed(db, id)
    ensures var half := ResolvedOnly(db, id, now);
            half.escrows == db.escrows && HasResolvedDispute(Run(half, acts), id) && id in Run(half, acts).escrows
  {
    var i := FindPending(db.disputes, id).value;
    assert FindDispute(db.disputes, id) == Some(i);
    ResolveAtAdvances(db, i, now);
    assert HasResolvedDispute(ResolvedOnly(db, id, now), id);
    RunAdvances(ResolvedOnly(db, id, now), acts);
  }

  /**
   * Cut between its two writes, an admin's resolution leaves a resolved dispute on a disputed escrow:
   * in any run from there the DisputeResolved event changes nothing, while resolving again settles it.
   */
  lemma CutResolveBlocksTheChain(db: Db, id: Id, now: Time, acts: seq<Action>,
                                 e: ChainEvent, r: Resolution, later: Time)
    requires DisputesConsistent(db) && StillDisputed(db, id)
    requires e.kind.DisputeResolved? && e.escrowId == id
    ensures var half := ResolvedOnly(db, id, now);
            && half.escrows == db.escrows
            && Step(Run(half, acts), Chain(e, later)).0 == Run(half, acts)
            && (db.escrows[id].contractId.Some? ==>
                  Step(half, Resolve(id, r, true, later)).0.escrows
                  == db.escrows[id := db.escrows[id].(state := if r == Refund then Refunded else Completed)])
  {
    CutResolveStays(db, id, now, acts);
    var late := Run(ResolvedOnly(db, id, now), acts);
    SettledExactly(late, e);
    ChainStepIsSync(late, e, later);
  }

  /**
   * As long as a run from such a cut leaves the escrow DISPUTED, a step takes it out of that state
   * exactly when an admin resolves it again with a mapped row and an accepted call, or when the chain
   * reports it completed, cancelled, released, expired or refunded.
   */
  lemma CutResolveExactly(db: Db, id: Id, now: Time, acts: seq<Action>, a: Action)
    requires DisputesConsistent(db) && StillDisputed(db, id)
    requires StillDisputed(Run(ResolvedOnly(db, id, now), acts), id)
    ensures var late := Run(ResolvedOnly(db, id, now), acts);
            StillDisputed(Step(late, a).0, id) <==> !SettlesCut(late, a, id)
  {
    hide Step, Run, SettlesCut, HasResolvedDispute;
    CutResolveStays(db, id, now, acts);
    LeavesExactly(Run(ResolvedOnly(db, id, now), acts), a, id);
  }

  class EscrowApi {
    var db: Db

    constructor (db: Db)
      ensures this.db == db
    {
      this.db := db;
    }

    method CancelEscrow(id: Id, caller: Address, isAdmin: bool, now: Time) returns (reply: Reply)
      modifies this
      ensures (db, reply) == Step(old(db), Cancel(id, caller, isAdmin, now)) && Advances(old(db), db)
      ensures Effect(old(db), db, reply, Cancel(id, caller, isAdmin, now), "")
    {
      StepAdvances(db, Cancel(id, caller, isAdmin, now));
      StepExactly(db, Cancel(id, caller, isAdmin, now));
      if id !in db.escrows { return NotFound; }
      var escrow := db.escrows[id];
      if !isAdmin && escrow.vendor != caller && escrow.buyer != caller { return Forbidden; }
      if !escrow.state.Funded? { return Conflict; }
      db := PutRow(db, id, escrow.(state := State.Cancelled, cancelledAt := Some(now)));
      return Done;
    }

    method CancelPendingEscrow(id: Id, caller: Address, isAdmin: bool, view: ChainView, now: Time)
      returns (reply: Reply)
      modifies this
      ensures (db, reply) == Step(old(db), CancelPending(id, caller, isAdmin, view, now)) && Advances(old(db), db)
      ensures Effect(old(db), db, reply, CancelPending(id, caller, isAdmin, view, now), "")
    {
      StepAdvances(db, CancelPending(id, caller, isAdmin, view, now));
      StepExactly(db, CancelPending(id, caller, isAdmin, view, now));
      if id !in db.escrows { return NotFound; }
      var escrow := db.escrows[id];
      if !isAdmin && escrow.vendor != caller && escrow.buyer != caller { return Forbidden; }
      if !escrow.state.Created? { return Conflict; }
      if escrow.contractId.Some? {
        if view.CallFailed? { return Unavailable; }
        if view.Present? && view.state == "FUNDED" {
          if !view.refundAccepted { return Unavailable; }
        } else if view.Present? && view.state != "CREATED" {
          return Conflict;
        }
      }
      db := PutRow(db, id, escrow.(state := State.Cancelled, cancelledAt := Some(now)));
      return Done;
    }

    method HandleShipment(id: Id, caller: Address, isAdmin: bool, tracking: string, now: Time) returns (reply: Reply)
      modifies this
      ensures (db, reply) == Step(old(db), Ship(id, caller, isAdmin, tracking, now)) && Advances(old(db), db)
      ensures exists trimmed: string :: Effect(old(db), db, reply, Ship(id, caller, isAdmin, tracking, now), trimmed)
    {
      StepAdvances(db, Ship(id, caller, isAdmin, tracking, now));
      StepExactly(db, Ship(id, caller, isAdmin, tracking, now));
      if |Trim(tracking)| < 3 { return BadRequest; }
      if id !in db.escrows { return NotFound; }
      var escrow := db.escrows[id];
      if !isAdmin && escrow.vendor != caller { return Forbidden; }
      if !escrow.state.Funded? { return Conflict; }
      if escrow.trackingId.Some? && escrow.trackingId.value != "" { return Conflict; }
      db := PutRow(db, id, escrow.(state := State.Shipped, trackingId := Some(Trim(tracking)), shippedAt := Some(now)));
      return Done;
    }

    /** The dispute row first, then the state. */
    method OpenBuyerDispute(id: Id, caller: Address, admin: Address, reason: string, budget: nat)
      returns (reply: Option<Reply>)
      modifies this
      ensures reply.Some? ==> (db, reply.value) == Step(old(db), OpenDispute(id, caller, admin, reason))
      ensures reply.Some? ==> Effect(old(db), db, reply.value, OpenDispute(id, caller, admin, reason), "")
      ensures reply.None? ==>
                && budget < 2 && db.escrows == old(db).escrows && db.order == old(db).order
                && db.disputes == old(db).disputes + if budget == 0 then [] else [Dispute(id, reason, Open, None)]
      ensures Advances(old(db), db)
    {
      StepAdvances(db, OpenDispute(id, caller, admin, reason));
      StepExactly(db, OpenDispute(id, caller, admin, reason));
      AdvancesSelf(db);
      if id !in db.escrows { return Some(NotFound); }
      var escrow := db.escrows[id];
      if caller != admin && caller != escrow.buyer && caller != escrow.vendor { return Some(Forbidden); }
      if !(escrow.state.Funded? || escrow.state.Shipped? || escrow.state.Delivered?) { return Some(Conflict); }
      if budget == 0 { return None; }
      var inserted := InsertDispute(db, id, reason);
      if inserted.None? { return Some(Conflict); }
      InsertDisputeAdvances(db, id, reason);
      db := inserted.value;
      if budget == 1 { return None; }
      db := PutRow(db, id, db.escrows[id].(state := State.Disputed));
      return Some(Done);
    }

    /** The contract call, the pending dispute if there is one, then the state. */
    method ResolveDispute(id: Id, resolution: Resolution, chainOk: bool, now: Time, budget: nat)
      returns (reply: Option<Reply>)
      modifies this
      ensures reply.Some? ==> (db, reply.value) == Step(old(db), Resolve(id, resolution, chainOk, now))
      ensures reply.Some? ==> Effect(old(db), db, reply.value, Resolve(id, resolution, chainOk, now), "")
      ensures reply.None? ==> budget < 2 && (db == old(db) || (budget == 1 && db == ResolvedOnly(old(db), id, now)))
      ensures reply.Some? ==> Advances(old(db), db)
    {
      StepAdvances(db, Resolve(id, resolution, chainOk, now));
      StepExactly(db, Resolve(id, resolution, chainOk, now));
      if id !in db.escrows { return Some(NotFound); }
      var escrow := db.escrows[id];
      if !escrow.state.Disputed? { return Some(Conflict); }
      if escrow.contractId.None? { return Some(Conflict); }
      if !chainOk { return Some(Unavailable); }
      var writes, pending := 0, FindPending(db.disputes, id);
      if pending.Some? {
        if writes == budget { return None; }
        db := ResolveAt(db, pending.value, now);
        writes := writes + 1;
      }
      if writes == budget { return None; }
      db := PutRow(db, id, db.escrows[id].(state := if resolution.Refund? then Refunded else Completed));
      return Some(Done);
    }

    /**
     * The claim is written before the contract call; a failed call takes it back. The time of the last
     * tracking check, which the source stamps in any case, is not a column of this model.
     */
    method ProcessShipment(id: Id, carrierDelivered: bool, chainOk: bool, now: Time, budget: nat)
      returns (reply: Option<Reply>)
      modifies this
      ensures reply.Some? ==> (db, reply.value) == Step(old(db), Deliver(id, carrierDelivered, chainOk, now))
      ensures reply.Some? ==> Effect(old(db), db, reply.value, Deliver(id, carrierDelivered, chainOk, now), "")
      ensures reply.None? ==>
                && budget < 2 && id in old(db).escrows && old(db).escrows[id].state.Shipped?
                && db == if budget == 0 then old(db) else ClaimedDelivery(old(db), id, now)
      ensures Advances(old(db), db)
    {
      StepAdvances(db, Deliver(id, carrierDelivered, chainOk, now));
      StepExactly(db, Deliver(id, carrierDelivered, chainOk, now));
      AdvancesSelf(db);
      if id !in db.escrows { return Some(NotFound); }
      var escrow := db.escrows[id];
      if escrow.trackingId.None? || escrow.trackingId.value == "" || escrow.contractId.None? { return Some(Done); }
      if !carrierDelivered { return Some(Done); }
      if !escrow.state.Shipped? || escrow.deliveryRecordedAt.Some? { return Some(Done); }
      if budget == 0 { return None; }
      ghost var before := db;
      PutRowAdvances(db, id, escrow.(deliveryRecordedAt := Some(now)));
      db := PutRow(db, id, escrow.(deliveryRecordedAt := Some(now)));
      if budget == 1 { return None; }
      if !chainOk {
        db := PutRow(db, id, db.escrows[id].(deliveryRecordedAt := None));
        assert db.escrows == before.escrows;
        return Some(Unavailable);
      }
      db := PutRow(db, id, db.escrows[id].(state := State.Delivered, deliveredAt := Some(now),
                                           deliveryRecordedAt := Some(now)));
      assert db.escrows == before.escrows[id := db.escrows[id]];
      return Some(Done);
    }
  }
}
