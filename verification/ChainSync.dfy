/** Applying one on-chain event to the tables: `EscrowService.syncStateFromChain`. */
module ChainSync {
  import opened EscrowTables

  datatype Resolution = Release | Refund

  datatype EventKind =
    | EscrowFunded | EscrowShipped | EscrowCompleted | EscrowCancelled
    | DisputeRaised | DisputeResolved | AutoReleased
    | EscrowAutoCancelled | EscrowExpired | RefundApproved
    | UnknownKind(name: string)

  datatype ChainEvent = ChainEvent(
    kind: EventKind,
    escrowId: Id,
    trackingId: Option<string>,
    txHash: Option<string>,
    reason: Option<string>,
    resolution: Option<Resolution>)

  /** One database write of a sync. */
  datatype Write =
    | Put(id: Id, row: Escrow)
    | Insert(id: Id, reason: string)
    | Settle(index: nat, now: Time)

  datatype Plan = Skip(reason: string) | Do(writes: seq<Write>)

  datatype Outcome = Skipped(reason: string) | Synced | Failed

  /** JavaScript `a || b || ''` on optional strings: the empty string is falsy. */
  function Truthy(a: Option<string>, b: Option<string>): string {
    if a.Some? && a.value != "" then a.value else if b.Some? then b.value else ""
  }

  /** The writes the handler decides on after its reads, in order. */
  function PlanOf(db: Db, e: ChainEvent, now: Time): Plan {
    if e.escrowId !in db.escrows then Skip("escrow_not_found") else
    var id, r := e.escrowId, db.escrows[e.escrowId];
    match e.kind
    case EscrowFunded =>
      if !r.state.Created? then Skip("already_funded_or_terminal")
      else Do([Put(id, r.(state := Funded))])
    case EscrowShipped =>
      if !r.state.Created? && !r.state.Funded? then Skip("already_shipped_or_terminal")
      else
        var tracking := if e.trackingId.Some? then e.trackingId
                        else if r.trackingId.Some? then r.trackingId else Some("");
        Do([Put(id, r.(state := Shipped, trackingId := tracking, shippedAt := Some(now)))])
    case EscrowCompleted =>
      if Terminal(r.state) then Skip("already_completed_or_terminal")
      else Do([Put(id, r.(state := Completed))])
    case EscrowCancelled =>
      if Terminal(r.state) then Skip("already_cancelled_or_terminal")
      else Do([Put(id, r.(state := Cancelled, cancelledAt := Some(now)))])
    case DisputeRaised =>
      if r.state.Disputed? then Skip("already_disputed")
      else if Terminal(r.state) then Skip("terminal_state")
      else
        var reason := if e.reason.Some? then e.reason.value else "on-chain dispute";
        Do([Insert(id, reason), Put(id, r.(state := Disputed))])
    case DisputeResolved =>
      if Terminal(r.state) then Skip("terminal_state")
      else if HasResolvedDispute(db, id) then Skip("dispute_already_resolved")
      else
        var i := FindDispute(db.disputes, id);
        var final := if e.resolution == Some(Refund) then Refunded else Completed;
        Do((if i.Some? then [Settle(i.value, now)] else []) + [Put(id, r.(state := final))])
    case AutoReleased =>
      if r.state.Released? then Skip("already_released")
      else if Terminal(r.state) then Skip("terminal_state")
      else Do([Put(id, r.(state := Released,
                          autoReleaseTxHash := Some(Truthy(e.txHash, r.autoReleaseTxHash))))])
    case EscrowAutoCancelled =>
      if Terminal(r.state) then Skip("already_cancelled_or_terminal")
      else Do([Put(id, r.(state := Cancelled, cancelledAt := Some(now)))])
    case EscrowExpired =>
      if Terminal(r.state) then Skip("already_refunded_or_terminal")
      else Do([Put(id, r.(state := Refunded))])
    case RefundApproved =>
      if Terminal(r.state) then Skip("already_refunded_or_terminal")
      else Do([Put(id, r.(state := Refunded))])
    case UnknownKind(_) => Skip("unknown_event_type")
  }

  /** One write; `None` when the unique index on a dispute's escrow rejects it. */
  function Exec(db: Db, w: Write): Option<Db> {
    match w
    case Put(id, row) => Some(PutRow(db, id, row))
    case Insert(id, reason) => InsertDispute(db, id, reason)
    case Settle(i, now) => if i < |db.disputes| then Some(ResolveAt(db, i, now)) else None
  }

  /** Runs writes until one is rejected; the flag tells whether all went through. */
  function ExecAll(db: Db, ws: seq<Write>): (Db, bool)
    decreases |ws|
  {
    if ws == [] then (db, true)
    else match Exec(db, ws[0])
      case None => (db, false)
      case Some(next) => ExecAll(next, ws[1..])
  }

  function Sync(db: Db, e: ChainEvent, now: Time): (Db, Outcome) {
    match PlanOf(db, e, now)
    case Skip(reason) => (db, Skipped(reason))
    case Do(ws) => var (next, ok) := ExecAll(db, ws); (next, if ok then Synced else Failed)
  }

  /** A sync whose process dies (or whose database fails) after at most `k` writes. */
  function SyncCut(db: Db, e: ChainEvent, now: Time, k: nat): Db {
    match PlanOf(db, e, now)
    case Skip(_) => db
    case Do(ws) => ExecAll(db, if k < |ws| then ws[..k] else ws).0
  }

  lemma ExecAllOne(db: Db, w: Write)
    ensures ExecAll(db, [w]) ==
            match Exec(db, w) case None => (db, false) case Some(d) => (d, true)
  {
    assert [w][1..] == [];
  }

  lemma ExecAllTwo(db: Db, v: Write, w: Write)
    ensures ExecAll(db, [v, w]) ==
            match Exec(db, v) case None => (db, false) case Some(d) => ExecAll(d, [w])
  {
    assert [v, w][1..] == [w];
  }

  /** The last write of every plan raises the rank of the escrow's own row; a first of two is to its dispute. */
  lemma PlanShape(db: Db, e: ChainEvent, now: Time)
    requires PlanOf(db, e, now).Do?
    ensures var ws := PlanOf(db, e, now).writes;
            && e.escrowId in db.escrows
            && 1 <= |ws| <= 2
            && ws[|ws| - 1].Put? && ws[|ws| - 1].id == e.escrowId
            && RowAdvances(db.escrows[e.escrowId], ws[|ws| - 1].row)
            && Rank(ws[|ws| - 1].row.state) > Rank(db.escrows[e.escrowId].state)
            && (|ws| == 2 ==>
                  || (ws[0].Insert? && ws[0].id == e.escrowId)
                  || (ws[0].Settle? && Some(ws[0].index) == FindDispute(db.disputes, e.escrowId)))
  {}

  /** The tables after a sync, with the plan's one or two writes unrolled. */
  lemma SyncUnfold(db: Db, e: ChainEvent, now: Time)
    ensures var p := PlanOf(db, e, now);
            && (p.Skip? ==> Sync(db, e, now) == (db, Skipped(p.reason)))
            && (p.Do? && |p.writes| == 1 ==> Sync(db, e, now) == (Exec(db, p.writes[0]).value, Synced))
            && (p.Do? && |p.writes| != 1 ==>
                  && |p.writes| == 2
                  && Sync(db, e, now) == match Exec(db, p.writes[0])
                                         case None => (db, Failed)
                                         case Some(d) => (Exec(d, p.writes[1]).value, Synced))
  {
    if PlanOf(db, e, now).Do? {
      PlanShape(db, e, now);
      var ws := PlanOf(db, e, now).writes;
      if |ws| == 1 {
        assert ws == [ws[0]];
        ExecAllOne(db, ws[0]);
      } else {
        assert ws == [ws[0], ws[1]];
        ExecAllTwo(db, ws[0], ws[1]);
        if Exec(db, ws[0]).Some? { ExecAllOne(Exec(db, ws[0]).value, ws[1]); }
      }
    }
  }

  /** The event has nothing left to do, now or after any other writer's step. */
  predicate Settled(db: Db, e: ChainEvent) {
    e.escrowId in db.escrows &&
    var s := db.escrows[e.escrowId].state;
    match e.kind
    case EscrowFunded => !s.Created?
    case EscrowShipped => !s.Created? && !s.Funded?
    case DisputeRaised => s.Disputed? || Terminal(s) || HasDispute(db, e.escrowId)
    case DisputeResolved => Terminal(s) || HasResolvedDispute(db, e.escrowId)
    case UnknownKind(_) => true
    case _ => Terminal(s)
  }

  lemma DisputeThenRowAdvances(db: Db, w: Write, id: Id, row: Escrow)
    requires id in db.escrows && RowAdvances(db.escrows[id], row) && !w.Put?
    ensures Exec(db, w).Some? ==> Advances(db, PutRow(Exec(db, w).value, id, row))
  {
    if Exec(db, w).Some? {
      var d := Exec(db, w).value;
      if w.Insert? { InsertDisputeAdvances(db, w.id, w.reason); }
      else { ResolveAtAdvances(db, w.index, w.now); }
      PutRowAdvances(d, id, row);
      AdvancesTransitive(db, d, PutRow(d, id, row));
    }
  }

  /** Sync only moves the tables forward. */
  lemma SyncAdvances(db: Db, e: ChainEvent, now: Time)
    ensures Advances(db, Sync(db, e, now).0)
  {
    SyncUnfold(db, e, now);
    if PlanOf(db, e, now).Do? {
      PlanShape(db, e, now);
      var id, ws := e.escrowId, PlanOf(db, e, now).writes;
      if |ws| == 1 {
        PutRowAdvances(db, id, ws[0].row);
      } else {
        DisputeThenRowAdvances(db, ws[0], id, ws[1].row);
      }
    }
  }

  /** A sync that returned, whatever it returned, leaves its event settled. */
  lemma SyncSettles(db: Db, e: ChainEvent, now: Time)
    requires e.escrowId in db.escrows
    ensures Settled(Sync(db, e, now).0, e)
  {
    SyncUnfold(db, e, now);
  }

  /** Settled is exactly the set of tables on which the event changes nothing. */
  lemma SettledExactly(db: Db, e: ChainEvent)
    requires e.escrowId in db.escrows
    ensures Settled(db, e) <==> forall now :: Sync(db, e, now).0 == db
  {
    forall now ensures Settled(db, e) <==> Sync(db, e, now).0 == db {
      SyncUnfold(db, e, now);
      if !Settled(db, e) {
        assert Sync(db, e, now).0.escrows[e.escrowId].state != db.escrows[e.escrowId].state;
      }
    }
    if !Settled(db, e) {
      assert Sync(db, e, 0).0 != db;
    }
  }

  /** The state an event reports. */
  function Target(e: ChainEvent): State {
    match e.kind
    case EscrowFunded => Funded
    case EscrowShipped => Shipped
    case EscrowCompleted => Completed
    case EscrowCancelled => State.Cancelled
    case EscrowAutoCancelled => State.Cancelled
    case DisputeRaised => State.Disputed
    case DisputeResolved => if e.resolution == Some(Refund) then Refunded else Completed
    case AutoReleased => Released
    case EscrowExpired => Refunded
    case RefundApproved => Refunded
    case UnknownKind(_) => Created
  }

  predicate Cancels(e: ChainEvent) { e.kind.EscrowCancelled? || e.kind.EscrowAutoCancelled? }

  /** What an event may change of a row besides its state, and what it stamps. */
  predicate RowFollows(r: Escrow, s: Escrow, e: ChainEvent, now: Time) {
    && s.state == Target(e)
    && (s.buyer, s.vendor, s.itemRef, s.amount, s.currency, s.contractId)
       == (r.buyer, r.vendor, r.itemRef, r.amount, r.currency, r.contractId)
    && (s.deliveredAt, s.deliveryRecordedAt, s.autoReleaseSubmittedAt)
       == (r.deliveredAt, r.deliveryRecordedAt, r.autoReleaseSubmittedAt)
    && s.cancelledAt == (if Cancels(e) then Some(now) else r.cancelledAt)
    && s.shippedAt == (if e.kind.EscrowShipped? then Some(now) else r.shippedAt)
    && (if e.kind.EscrowShipped? then
          s.trackingId.Some? && (e.trackingId.Some? ==> s.trackingId == e.trackingId)
          && (e.trackingId.None? && r.trackingId.Some? ==> s.trackingId == r.trackingId)
          && (e.trackingId.None? && r.trackingId.None? ==> s.trackingId.value == "")
        else s.trackingId == r.trackingId)
    && (if e.kind.AutoReleased? then
          s.autoReleaseTxHash.Some? && (e.txHash.Some? && e.txHash.value != "" ==> s.autoReleaseTxHash == e.txHash)
          && (e.txHash.None? || e.txHash.value == "" ==>
                s.autoReleaseTxHash.value == if r.autoReleaseTxHash.Some? then r.autoReleaseTxHash.value else "")
        else s.autoReleaseTxHash == r.autoReleaseTxHash)
  }

  /** A raised dispute is recorded as open, a resolved one closes the escrow's dispute, nothing else changes. */
  predicate DisputesFollow(a: seq<Dispute>, b: seq<Dispute>, e: ChainEvent, now: Time) {
    match e.kind
    case DisputeRaised =>
      && |b| == |a| + 1 && b[..|a|] == a && b[|a|].escrowId == e.escrowId && b[|a|].status.Open?
      && b[|a|].resolvedAt.None?
      && b[|a|].reason == (if e.reason.Some? then e.reason.value else "on-chain dispute")
    case DisputeResolved =>
      && |b| == |a|
      && forall i :: 0 <= i < |a| ==>
           if FindDispute(a, e.escrowId) == Some(i)
           then && b[i].escrowId == e.escrowId && b[i].status.Resolved? && b[i].resolvedAt == Some(now)
                && b[i].reason == a[i].reason
           else b[i] == a[i]
    case _ => b == a
  }

  /** An event that is not settled takes its escrow to the state it reports, and changes no other row. */
  lemma SyncReaches(db: Db, e: ChainEvent, now: Time)
    requires e.escrowId in db.escrows && !Settled(db, e)
    ensures var (next, out) := Sync(db, e, now);
            && out.Synced?
            && next.order == db.order && next.escrows.Keys == db.escrows.Keys
            && (forall id :: id in db.escrows && id != e.escrowId ==> next.escrows[id] == db.escrows[id])
            && RowFollows(db.escrows[e.escrowId], next.escrows[e.escrowId], e, now)
            && DisputesFollow(db.disputes, next.disputes, e, now)
  {
    SyncUnfold(db, e, now);
  }

  /** An event that is skipped says why: each reason, and exactly when it is given. */
  lemma SkipsExactly(db: Db, e: ChainEvent, now: Time)
    ensures var (next, out) := Sync(db, e, now);
            && (out.Skipped? ==> next == db)
            && (out == Skipped("escrow_not_found") <==> e.escrowId !in db.escrows)
            && (e.escrowId in db.escrows ==>
                  var s := db.escrows[e.escrowId].state;
                  var final := s in {Completed, Released, Refunded, State.Cancelled};
                  && (out == Skipped("unknown_event_type") <==> e.kind.UnknownKind?)
                  && (out == Skipped("already_funded_or_terminal") <==> e.kind == EscrowFunded && s != Created)
                  && (out == Skipped("already_shipped_or_terminal") <==>
                        e.kind == EscrowShipped && s != Created && s != Funded)
                  && (out == Skipped("already_completed_or_terminal") <==> e.kind == EscrowCompleted && final)
                  && (out == Skipped("already_cancelled_or_terminal") <==>
                        e.kind in {EscrowCancelled, EscrowAutoCancelled} && final)
                  && (out == Skipped("already_refunded_or_terminal") <==>
                        e.kind in {EscrowExpired, RefundApproved} && final)
                  && (out == Skipped("already_released") <==> e.kind == AutoReleased && s == Released)
                  && (out == Skipped("already_disputed") <==> e.kind == DisputeRaised && s == State.Disputed)
                  && (out == Skipped("terminal_state") <==>
                        && final
                        && (e.kind in {DisputeRaised, DisputeResolved} || (e.kind == AutoReleased && s != Released)))
                  && (out == Skipped("dispute_already_resolved") <==>
                        e.kind == DisputeResolved && !final && HasResolvedDispute(db, e.escrowId)))
  {
    SyncUnfold(db, e, now);
  }

  /** No later step can give a settled event something to do again. */
  lemma SettledStable(a: Db, b: Db, e: ChainEvent)
    requires Settled(a, e) && Advances(a, b)
    ensures Settled(b, e)
  {
    assert RowAdvances(a.escrows[e.escrowId], b.escrows[e.escrowId]);
  }

  // ── Failure between the writes of one sync, then retry ────────────────────

  /** Successive attempts at the same event, each cut after some number of writes. */
  function Attempts(db: Db, e: ChainEvent, cuts: seq<(Time, nat)>): Db
    decreases |cuts|
  {
    if cuts == [] then db
    else Attempts(SyncCut(db, e, cuts[0].0, cuts[0].1), e, cuts[1..])
  }

  /** Whether there is a timestamp, and not what it reads. */
  function Stamp(t: Option<Time>): Option<Time> { if t.Some? then Some(0) else None }

  function Timeless(r: Escrow): Escrow {
    r.(shippedAt := Stamp(r.shippedAt), deliveredAt := Stamp(r.deliveredAt),
       deliveryRecordedAt := Stamp(r.deliveryRecordedAt),
       autoReleaseSubmittedAt := Stamp(r.autoReleaseSubmittedAt), cancelledAt := Stamp(r.cancelledAt))
  }

  predicate SameDispute(c: Dispute, d: Dispute) {
    c.(resolvedAt := Stamp(c.resolvedAt)) == d.(resolvedAt := Stamp(d.resolvedAt))
  }

  /** The same tables but for what their timestamps read. */
  ghost predicate SameShape(a: Db, b: Db) {
    && a.order == b.order
    && a.escrows.Keys == b.escrows.Keys
    && (forall id :: id in a.escrows ==> Timeless(a.escrows[id]) == Timeless(b.escrows[id]))
    && |a.disputes| == |b.disputes|
    && (forall i :: 0 <= i < |a.disputes| ==> SameDispute(a.disputes[i], b.disputes[i]))
  }

  /** The event is about to write both the dispute table and the escrow table. */
  predicate WritesBothTables(db: Db, e: ChainEvent) {
    && e.escrowId in db.escrows
    && !Terminal(db.escrows[e.escrowId].state)
    && (|| (e.kind.DisputeRaised? && !db.escrows[e.escrowId].state.Disputed? && !HasDispute(db, e.escrowId))
        || (e.kind.DisputeResolved? && HasDispute(db, e.escrowId) && !HasResolvedDispute(db, e.escrowId)))
  }

  /** Every schedule of cut attempts followed by a completed one gives the uninterrupted result. */
  ghost predicate Converges(db: Db, e: ChainEvent) {
    forall cuts: seq<(Time, nat)>, now: Time ::
      SameShape(Sync(Attempts(db, e, cuts), e, now).0, Sync(db, e, now).0)
  }

  /** Two writes that differ in the clock reading at most. */
  predicate SameWrite(v: Write, w: Write) {
    match (v, w)
    case (Put(i, r), Put(j, s)) => i == j && Timeless(r) == Timeless(s)
    case (Insert(i, r), Insert(j, s)) => i == j && r == s
    case (Settle(i, _), Settle(j, _)) => i == j
    case _ => false
  }

  lemma SamePlan(db: Db, e: ChainEvent, t: Time, u: Time)
    ensures var p, q := PlanOf(db, e, t), PlanOf(db, e, u);
            && (p.Skip? <==> q.Skip?)
            && (p.Do? ==> |p.writes| == |q.writes| &&
                          forall i :: 0 <= i < |p.writes| ==> SameWrite(p.writes[i], q.writes[i]))
  {}

  lemma SameWriteSameShape(a: Db, b: Db, v: Write, w: Write)
    requires SameShape(a, b) && SameWrite(v, w)
    ensures Exec(a, v).Some? <==> Exec(b, w).Some?
    ensures Exec(a, v).Some? ==> SameShape(Exec(a, v).value, Exec(b, w).value)
  {
    if v.Insert? {
      var x, y := FindDispute(a.disputes, v.id), FindDispute(b.disputes, v.id);
      if x.Some? { assert b.disputes[x.value].escrowId == v.id; }
      if y.Some? { assert a.disputes[y.value].escrowId == v.id; }
    }
  }

  lemma SyncTimeIrrelevant(db: Db, e: ChainEvent, t: Time, u: Time)
    ensures SameShape(Sync(db, e, t).0, Sync(db, e, u).0)
  {
    SamePlan(db, e, t, u);
    SyncUnfold(db, e, t);
    SyncUnfold(db, e, u);
    var p, q := PlanOf(db, e, t), PlanOf(db, e, u);
    if p.Do? {
      PlanShape(db, e, t);
      SameWriteSameShape(db, db, p.writes[0], q.writes[0]);
      if |p.writes| == 2 && Exec(db, p.writes[0]).Some? {
        SameWriteSameShape(Exec(db, p.writes[0]).value, Exec(db, q.writes[0]).value, p.writes[1], q.writes[1]);
      }
    }
  }

  /** Where at most one table is written, a cut attempt did all of its work or none. */
  lemma CutIsAllOrNothing(db: Db, e: ChainEvent, now: Time, k: nat)
    requires !WritesBothTables(db, e)
    ensures SyncCut(db, e, now, k) == db || SyncCut(db, e, now, k) == Sync(db, e, now).0
  {
    SyncUnfold(db, e, now);
    var p := PlanOf(db, e, now);
    if p.Do? && k < |p.writes| {
      var ws := p.writes;
      if k == 1 {
        assert ws[..1] == [ws[0]];
        ExecAllOne(db, ws[0]);
      }
    }
  }

  lemma {:induction false} SettledAttempts(db: Db, e: ChainEvent, cuts: seq<(Time, nat)>)
    requires Settled(db, e)
    ensures Attempts(db, e, cuts) == db
  {
    if cuts != [] {
      assert !WritesBothTables(db, e);
      CutIsAllOrNothing(db, e, cuts[0].0, cuts[0].1);
      SettledExactly(db, e);
      SettledAttempts(db, e, cuts[1..]);
    }
  }

  lemma {:induction false} AttemptsAllOrNothing(db: Db, e: ChainEvent, cuts: seq<(Time, nat)>)
    requires !WritesBothTables(db, e)
    ensures Attempts(db, e, cuts) == db || exists t: Time :: Attempts(db, e, cuts) == Sync(db, e, t).0
  {
    if cuts != [] {
      var t, k := cuts[0].0, cuts[0].1;
      var next := SyncCut(db, e, t, k);
      CutIsAllOrNothing(db, e, t, k);
      if next == db {
        AttemptsAllOrNothing(db, e, cuts[1..]);
      } else {
        SyncSettles(db, e, t);
        SettledAttempts(next, e, cuts[1..]);
        assert Attempts(db, e, cuts) == Sync(db, e, t).0;
      }
    }
  }

  /** Cut between its two writes, a dispute event never reaches the escrow row again. */
  lemma HalfWrittenIsStuck(db: Db, e: ChainEvent, t: Time, cuts: seq<(Time, nat)>, now: Time)
    requires WritesBothTables(db, e)
    ensures var half := SyncCut(db, e, t, 1);
            && Sync(Attempts(half, e, cuts), e, now).0 == half
            && half.escrows == db.escrows
            && (Sync(half, e, now).1 == if e.kind.DisputeRaised? then Failed
                                        else Skipped("dispute_already_resolved"))
            && e.escrowId in Sync(db, e, now).0.escrows
            && Sync(db, e, now).0.escrows[e.escrowId].state != db.escrows[e.escrowId].state
  {
    var half := SyncCut(db, e, t, 1);
    SyncUnfold(db, e, t);
    SyncUnfold(db, e, now);
    var ws := PlanOf(db, e, t).writes;
    assert ws[..1] == [ws[0]];
    ExecAllOne(db, ws[0]);
    if e.kind.DisputeRaised? { InsertDisputeAdvances(db, e.escrowId, ws[0].reason); }
    else { ResolveAtAdvances(db, ws[0].index, t); }
    SettledAttempts(half, e, cuts);
    SettledExactly(half, e);
    SyncUnfold(half, e, now);
  }

  /**
   * A failed sync that is retried ends like an uninterrupted one exactly when the event
   * does not have to write both tables.
   */
  lemma ConvergesExactly(db: Db, e: ChainEvent)
    ensures Converges(db, e) <==> !WritesBothTables(db, e)
  {
    if WritesBothTables(db, e) {
      var cuts: seq<(Time, nat)> := [(0, 1)];
      assert cuts[1..] == [];
      var half := SyncCut(db, e, 0, 1);
      assert Attempts(db, e, cuts) == Attempts(half, e, []) == half;
      HalfWrittenIsStuck(db, e, 0, [], 0);
      assert !SameShape(Sync(Attempts(db, e, cuts), e, 0).0, Sync(db, e, 0).0);
    } else {
      forall cuts: seq<(Time, nat)>, now: Time
        ensures SameShape(Sync(Attempts(db, e, cuts), e, now).0, Sync(db, e, now).0)
      {
        AttemptsAllOrNothing(db, e, cuts);
        if Attempts(db, e, cuts) != db {
          var t: Time :| Attempts(db, e, cuts) == Sync(db, e, t).0;
          if e.escrowId in db.escrows {
            SyncSettles(db, e, t);
            SettledExactly(Sync(db, e, t).0, e);
          }
          SyncTimeIrrelevant(db, e, t, now);
        }
      }
    }
  }

  // ── The handler as it runs ────────────────────────────────────────────────

  lemma {:induction false} ExecAllSnoc(db: Db, ws: seq<Write>, w: Write)
    requires ExecAll(db, ws).1
    ensures ExecAll(db, ws + [w]) ==
            match Exec(ExecAll(db, ws).0, w) case None => (ExecAll(db, ws).0, false) case Some(d) => (d, true)
    decreases |ws|
  {
    if ws == [] {
      assert ws + [w] == [w];
      ExecAllOne(db, w);
    } else {
      assert (ws + [w])[1..] == ws[1..] + [w];
      ExecAllSnoc(Exec(db, ws[0]).value, ws[1..], w);
    }
  }

  /** A rejected write ends the run there, however many more writes were allowed. */
  lemma {:induction false} ExecAllStops(db: Db, ws: seq<Write>, i: nat, budget: nat)
    requires i < |ws| && i < budget
    requires ExecAll(db, ws[..i]).1 && Exec(ExecAll(db, ws[..i]).0, ws[i]).None?
    ensures ExecAll(db, if budget < |ws| then ws[..budget] else ws) == (ExecAll(db, ws[..i]).0, false)
    ensures ExecAll(db, ws) == (ExecAll(db, ws[..i]).0, false)
    decreases |ws|
  {
    var cut := if budget < |ws| then ws[..budget] else ws;
    if i == 0 {
      assert cut[0] == ws[0] && ws[..0] == [];
    } else {
      var d := Exec(db, ws[0]).value;
      assert ws[..i][1..] == ws[1..][..i - 1];
      assert cut[0] == ws[0];
      assert cut[1..] == if budget - 1 < |ws[1..]| then ws[1..][..budget - 1] else ws[1..];
      ExecAllStops(d, ws[1..], i - 1, budget - 1);
    }
  }

  class EscrowService {
    var db: Db

    constructor (db: Db)
      ensures this.db == db
    {
      this.db := db;
    }

    /** Runs the handler against a database that accepts `budget` more writes and then fails. */
    method SyncStateFromChain(e: ChainEvent, now: Time, budget: nat) returns (r: Option<Outcome>)
      modifies this
      ensures db == SyncCut(old(db), e, now, budget)
      ensures r.Some? ==> (db, r.value) == Sync(old(db), e, now)
      ensures r.None? ==> PlanOf(old(db), e, now).Do? && budget < |PlanOf(old(db), e, now).writes|
    {
      hide PlanOf, Exec;
      ghost var before := db;
      var plan := PlanOf(db, e, now);
      if plan.Skip? {
        return Some(Skipped(plan.reason));
      }
      var ws, i := plan.writes, 0;
      while i < |ws| && i < budget
        invariant 0 <= i <= |ws|
        invariant ExecAll(before, ws[..i]) == (db, true)
        invariant i <= budget
        invariant ExecAll(before, ws) == ExecAll(db, ws[i..])
      {
        ExecAllSnoc(before, ws[..i], ws[i]);
        assert ws[..i + 1] == ws[..i] + [ws[i]];
        assert ws[i..][1..] == ws[i + 1..];
        var next := Exec(db, ws[i]);
        if next.None? {
          ExecAllStops(before, ws, i, budget);
          return Some(Failed);
        }
        db := next.value;
        i := i + 1;
      }
      if i < |ws| {
        return None;
      }
      assert ws[..i] == ws;
      return Some(Synced);
    }
  }
}
