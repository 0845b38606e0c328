/**
 * What each request, worker write and creation answers and which columns it writes, stated on the
 * tables before and after.
 *
 * Models src/escrow/escrow.service.ts, src/escrow/buyer-dispute.service.ts,
 * src/admin/dispute/dispute.service.ts, src/workers/tracking-poll.worker.ts and the auto-release
 * columns of src/escrow/escrow.repository.ts.
 */
module WriterEffects {
  import opened EscrowTables
  import opened ChainSync
  import opened Lifecycle

  // ── Text ──────────────────────────────────────────────────────────────────

  /** `t` is what lies between the white space at both ends of `s`. */
  predicate Between(s: string, t: string, i: nat) {
    && i + |t| <= |s| && t == s[i..i + |t|]
    && (forall k :: 0 <= k < i ==> Space(s[k]))
    && (forall k :: i + |t| <= k < |s| ==> Space(s[k]))
    && (t != "" ==> !Space(t[0]) && !Space(t[|t| - 1]))
  }

  ghost predicate TrimsTo(s: string, t: string) { exists i: nat :: Between(s, t, i) }

  lemma {:induction false} TrimStartExactly(s: string)
    ensures var t := TrimStart(s);
            && |t| <= |s| && t == s[|s| - |t|..]
            && (forall k :: 0 <= k < |s| - |t| ==> Space(s[k])) && (t != "" ==> !Space(t[0]))
  {
    hide Space;
    if s != "" && Space(s[0]) {
      TrimStartExactly(s[1..]);
      var t := TrimStart(s[1..]);
      assert TrimStart(s) == t && s[1..][|s| - 1 - |t|..] == s[|s| - |t|..];
      forall k | 0 <= k < |s| - |t| ensures Space(s[k]) { if k > 0 { assert s[k] == s[1..][k - 1]; } }
    }
  }

  lemma {:induction false} TrimEndExactly(s: string)
    ensures var t := TrimEnd(s);
            && |t| <= |s| && t == s[..|t|]
            && (forall k :: |t| <= k < |s| ==> Space(s[k])) && (t != "" ==> !Space(t[|t| - 1]))
    decreases |s|
  {
    hide Space;
    if s != "" && Space(s[|s| - 1]) {
      var init := s[..|s| - 1];
      TrimEndExactly(init);
      var t := TrimEnd(init);
      assert TrimEnd(s) == t && init[..|t|] == s[..|t|];
      forall k | |t| <= k < |s| ensures Space(s[k]) { if k < |s| - 1 { assert s[k] == init[k]; } }
    }
  }

  lemma SameMiddle(s: string, t: string, i: nat, u: string, j: nat)
    requires Between(s, t, i) && Between(s, u, j)
    ensures t == u
  {
    hide Space;
    if t != "" { assert s[i] == t[0] && s[i + |t| - 1] == t[|t| - 1]; }
    if u != "" { assert s[j] == u[0] && s[j + |u| - 1] == u[|u| - 1]; }
  }

  lemma TrimBetween(s: string)
    ensures |TrimStart(s)| <= |s| && Between(s, Trim(s), |s| - |TrimStart(s)|)
  {
    hide Space, TrimStart, TrimEnd;
    TrimStartExactly(s);
    TrimEndExactly(TrimStart(s));
    var a, b, at := TrimStart(s), Trim(s), |s| - |TrimStart(s)|;
    assert b == s[at..][..|b|] == s[at..at + |b|];
    forall k | at + |b| <= k < |s| ensures Space(s[k]) { assert s[k] == a[k - at]; }
    if b != "" { assert b[0] == a[0]; }
  }

  /** Trimming removes the white space at both ends and nothing else. */
  lemma TrimExactly(s: string, t: string)
    ensures TrimsTo(s, t) <==> t == Trim(s)
  {
    hide Between, Trim, TrimStart;
    TrimBetween(s);
    if TrimsTo(s, t) {
      var i: nat :| Between(s, t, i);
      SameMiddle(s, t, i, Trim(s), |s| - |TrimStart(s)|);
    }
  }

  // ── Tables before and after ───────────────────────────────────────────────

  /** One row is replaced; no other row, no dispute and not the order of rows. */
  predicate OnlyRow(a: Db, b: Db, id: Id, row: Escrow) {
    b.order == a.order && b.disputes == a.disputes && b.escrows == a.escrows[id := row]
  }

  predicate HasPending(ds: seq<Dispute>, id: Id, i: nat)
    requires i < |ds|
  {
    ds[i].escrowId == id && (ds[i].status == Open || ds[i].status == UnderReview)
  }

  /** The first undecided dispute of an escrow, if there is one, is resolved; all others stay. */
  predicate ResolvesFirst(a: seq<Dispute>, b: seq<Dispute>, id: Id, now: Time) {
    && |b| == |a|
    && forall i :: 0 <= i < |a| ==>
         b[i] == if HasPending(a, id, i) && forall j :: 0 <= j < i ==> !HasPending(a, id, j)
                 then Dispute(id, a[i].reason, Resolved, Some(now)) else a[i]
  }

  /** What the contract says allows a pending escrow to be cancelled, a refund included. */
  predicate ChainAllows(r: Escrow, view: ChainView) {
    || r.contractId.None? || view == Absent
    || (view.Present? && (view.state == "CREATED" || (view.state == "FUNDED" && view.refundAccepted)))
  }

  predicate ChainFails(r: Escrow, view: ChainView) {
    r.contractId.Some? && (view == CallFailed || (view.Present? && view.state == "FUNDED" && !view.refundAccepted))
  }

  /** The shipment of an escrow can be recorded as delivered. */
  predicate Deliverable(r: Escrow, carrierDelivered: bool) {
    && carrierDelivered && r.state == Shipped && r.deliveryRecordedAt.None? && r.contractId.Some?
    && r.trackingId.Some? && r.trackingId.value != ""
  }

  predicate SameItem(db: Db, vendor: Address, itemRef: string) {
    exists k :: k in db.escrows && db.escrows[k].vendor == vendor && db.escrows[k].itemRef == itemRef
  }

  // ── Each action ───────────────────────────────────────────────────────────

  ghost predicate CreateEffect(a: Db, b: Db, reply: Reply, act: Action)
    requires act.Create?
  {
    var bad := act.amount <= 0 || act.buyer == act.vendor;
    var taken := act.id in a.escrows || SameItem(a, act.vendor, act.itemRef);
    && (reply == BadRequest <==> bad)
    && (reply == Conflict <==> !bad && taken)
    && (reply == Done <==> !bad && !taken)
    && (reply == Done ==>
          && b.order == a.order + [act.id] && b.disputes == a.disputes
          && b.escrows.Keys == a.escrows.Keys + {act.id}
          && (forall k :: k in a.escrows ==> b.escrows[k] == a.escrows[k])
          && var row := b.escrows[act.id];
             && row.buyer == act.buyer && row.vendor == act.vendor && row.itemRef == act.itemRef
             && row.amount == act.amount && row.currency == act.currency && row.state == Created
             && row.contractId.None? && row.trackingId.None? && row.shippedAt.None?
             && row.deliveredAt.None? && row.deliveryRecordedAt.None? && row.cancelledAt.None?
             && row.autoReleaseSubmittedAt.None? && row.autoReleaseTxHash.None?)
  }

  /** A funded escrow is cancelled by a participant or an admin, a pending one if the contract allows it. */
  predicate CancelEffect(a: Db, b: Db, reply: Reply, act: Action, r: Escrow)
    requires act.Cancel? || act.CancelPending?
  {
    var allowed := act.isAdmin || act.caller == r.buyer || act.caller == r.vendor;
    var due := if act.Cancel? then r.state == Funded else r.state == Created;
    && (reply == Forbidden <==> !allowed)
    && (reply == Unavailable <==> allowed && due && act.CancelPending? && ChainFails(r, act.view))
    && (reply == Done <==> allowed && due && (act.Cancel? || ChainAllows(r, act.view)))
    && (reply == Conflict <==>
          allowed && (!due || (act.CancelPending? && !ChainAllows(r, act.view) && !ChainFails(r, act.view))))
    && (reply == Done ==> OnlyRow(a, b, act.id, r.(state := State.Cancelled, cancelledAt := Some(act.now))))
  }

  /** The vendor or an admin ships a funded escrow without tracking id; the id is stored trimmed. */
  predicate ShipEffect(a: Db, b: Db, reply: Reply, act: Action, r: Escrow, tracking: string)
    requires act.Ship?
  {
    var allowed := act.isAdmin || act.caller == r.vendor;
    var due := r.state == Funded && (r.trackingId == None || r.trackingId == Some(""));
    && (reply == Forbidden <==> !allowed)
    && (reply == Conflict <==> allowed && !due)
    && (reply == Done <==> allowed && due)
    && (reply == Done ==>
          OnlyRow(a, b, act.id, r.(state := Shipped, trackingId := Some(tracking), shippedAt := Some(act.now))))
  }

  predicate OpenDisputeEffect(a: Db, b: Db, reply: Reply, act: Action, r: Escrow)
    requires act.OpenDispute?
  {
    var allowed := act.caller == act.admin || act.caller == r.buyer || act.caller == r.vendor;
    var due := (r.state == Funded || r.state == Shipped || r.state == Delivered)
               && forall i :: 0 <= i < |a.disputes| ==> a.disputes[i].escrowId != act.id;
    && (reply == Forbidden <==> !allowed)
    && (reply == Conflict <==> allowed && !due)
    && (reply == Done <==> allowed && due)
    && (reply == Done ==>
          && b.order == a.order && b.escrows == a.escrows[act.id := r.(state := State.Disputed)]
          && |b.disputes| == |a.disputes| + 1 && b.disputes[..|a.disputes|] == a.disputes
          && var d := b.disputes[|a.disputes|];
             d.escrowId == act.id && d.reason == act.reason && d.status == Open && d.resolvedAt == None)
  }

  predicate ResolveEffect(a: Db, b: Db, reply: Reply, act: Action, r: Escrow)
    requires act.Resolve?
  {
    var due := r.state == Disputed && r.contractId.Some?;
    && (reply == Conflict <==> !due)
    && (reply == Unavailable <==> due && !act.chainOk)
    && (reply == Done <==> due && act.chainOk)
    && (reply == Done ==>
          && b.order == a.order && ResolvesFirst(a.disputes, b.disputes, act.id, act.now)
          && (act.resolution == Refund ==> b.escrows == a.escrows[act.id := r.(state := Refunded)])
          && (act.resolution == Release ==> b.escrows == a.escrows[act.id := r.(state := Completed)]))
  }

  predicate DeliverEffect(a: Db, b: Db, reply: Reply, act: Action, r: Escrow)
    requires act.Deliver?
  {
    var due := Deliverable(r, act.carrierDelivered);
    && (reply == Unavailable <==> due && !act.chainOk)
    && (reply == Done <==> due ==> act.chainOk)
    && (!due ==> b == a)
    && (due && act.chainOk ==>
          OnlyRow(a, b, act.id, r.(state := Delivered, deliveredAt := Some(act.now),
                                   deliveryRecordedAt := Some(act.now))))
  }

  predicate ReleaseEffect(a: Db, b: Db, reply: Reply, act: Action, r: Escrow)
    requires act.ClaimRelease? || act.RecordRelease? || act.ClearRelease?
  {
    && (reply == Conflict <==> act.ClaimRelease? && r.autoReleaseSubmittedAt.Some?)
    && (reply == Done <==> act.ClaimRelease? ==> r.autoReleaseSubmittedAt.None?)
    && (reply == Done ==>
          match act
          case ClaimRelease(id, now) => OnlyRow(a, b, id, r.(autoReleaseSubmittedAt := Some(now)))
          case RecordRelease(id, hash, now) =>
            OnlyRow(a, b, id, r.(autoReleaseSubmittedAt := Some(now), autoReleaseTxHash := Some(hash)))
          case _ => OnlyRow(a, b, act.id, r.(autoReleaseSubmittedAt := None)))
  }

  predicate OnOneEscrow(act: Action) { !act.Chain? && !act.Create? && !act.Pay? }

  predicate RowEffect(a: Db, b: Db, reply: Reply, act: Action, tracking: string)
    requires OnOneEscrow(act) && act.id in a.escrows
  {
    var r := a.escrows[act.id];
    if act.Cancel? || act.CancelPending? then CancelEffect(a, b, reply, act, r)
    else if act.Ship? then ShipEffect(a, b, reply, act, r, tracking)
    else if act.OpenDispute? then OpenDisputeEffect(a, b, reply, act, r)
    else if act.Resolve? then ResolveEffect(a, b, reply, act, r)
    else if act.Deliver? then DeliverEffect(a, b, reply, act, r)
    else ReleaseEffect(a, b, reply, act, r)
  }

  /**
   * When each reply of a request, a worker's write or a creation comes, and the columns it writes with
   * everything else kept. `tracking` is the trimmed tracking id of a shipment.
   */
  ghost predicate Effect(a: Db, b: Db, reply: Reply, act: Action, tracking: string)
    requires !act.Chain? && !act.Pay?
  {
    && (reply != Done ==> b == a)
    && if act.Create? then CreateEffect(a, b, reply, act)
       else
         var short := act.Ship? && |tracking| < 3;
         && (act.Ship? ==> TrimsTo(act.tracking, tracking))
         && (reply == BadRequest <==> short)
         && (reply == NotFound <==> !short && act.id !in a.escrows)
         && (!short && act.id in a.escrows ==> RowEffect(a, b, reply, act, tracking))
  }

  lemma FirstPending(ds: seq<Dispute>, id: Id)
    ensures forall k :: 0 <= k < |ds| ==>
              (FindPending(ds, id) == Some(k) <==>
               HasPending(ds, id, k) && forall j :: 0 <= j < k ==> !HasPending(ds, id, j))
  {
    var i := FindPending(ds, id);
    if i.Some? { assert HasPending(ds, id, i.value); }
  }

  lemma ResolveExactly(db: Db, act: Action)
    requires act.Resolve? && act.id in db.escrows
    ensures ResolveEffect(db, ResolveStep(db, db.escrows[act.id], act).0, ResolveStep(db, db.escrows[act.id], act).1,
                          act, db.escrows[act.id])
  {
    FirstPending(db.disputes, act.id);
  }

  lemma RowStepExactly(db: Db, act: Action)
    requires OnOneEscrow(act) && act.id in db.escrows && (act.Ship? ==> |Trim(act.tracking)| >= 3)
    ensures RowEffect(db, RowStep(db, act).0, RowStep(db, act).1, act, if act.Ship? then Trim(act.tracking) else "")
  {
    hide Trim;
    if act.Resolve? { ResolveExactly(db, act); }
  }

  lemma StepExactly(db: Db, act: Action)
    requires !act.Chain? && !act.Pay?
    ensures Effect(db, Step(db, act).0, Step(db, act).1, act, if act.Ship? then Trim(act.tracking) else "")
  {
    if act.Ship? { TrimExactly(act.tracking, Trim(act.tracking)); }
    RefusalWritesNothing(db, act);
    if OnOneEscrow(act) && act.id in db.escrows && (act.Ship? ==> |Trim(act.tracking)| >= 3) {
      RowStepExactly(db, act);
    }
  }
}
