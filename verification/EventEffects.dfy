/**
 * From the event as the node serves it to the tables it leaves: names, payload fields and columns, through
 * the poller's decoding, the id mapping and the handler's switch together.
 *
 * Models `processEvent` of src/stellar/soroban-poller.service.ts with `syncStateFromChain` of
 * src/escrow/escrow.service.ts.
 */
module EventEffects {
  import opened EscrowTables
  import opened ChainSync
  import opened DecimalText
  import opened SorobanPoller
  import opened WriterEffects
  import L = Lifecycle

  // ── What an event asks for ────────────────────────────────────────────────

  /** Two topics that are text and not empty, and an id in a form that is accepted. */
  predicate Usable(raw: RawEvent) {
    && raw.parsed.Some?
    && raw.parsed.value.topic0.Some? && raw.parsed.value.topic0.value != ""
    && raw.parsed.value.topic1.Some? && raw.parsed.value.topic1.value != ""
    && "escrow_id" in raw.parsed.value.data && ToContractEscrowId(raw.parsed.value.data["escrow_id"]).Some?
  }

  /** The row carries the id that the event names. */
  predicate AddressedTo(db: Db, raw: RawEvent, id: Id) {
    && Usable(raw) && id in db.escrows
    && db.escrows[id].contractId == ToContractEscrowId(raw.parsed.value.data["escrow_id"])
  }

  /** The two topics written together. */
  function Name(raw: RawEvent): string
    requires Usable(raw)
  {
    raw.parsed.value.topic0.value + raw.parsed.value.topic1.value
  }

  function Payload(raw: RawEvent): map<string, Value>
    requires Usable(raw)
  {
    raw.parsed.value.data
  }

  /** The text under a key; None when there is none or it is not text. */
  predicate TextAt(data: map<string, Value>, key: string, text: Option<string>) {
    match text
    case Some(t) => key in data && data[key] == Text(t)
    case None => key in data ==> !data[key].Text?
  }

  /** The resolution is the word, bare or as the only item of a list, in any case of its letters. */
  predicate Says(data: map<string, Value>, word: string) {
    "resolution" in data &&
    match data["resolution"]
    case Text(t) => L.SameWord(t, word)
    case List(items) => |items| == 1 && items[0].Text? && L.SameWord(items[0].text, word)
    case _ => false
  }

  const RELEASES: set<string> := {"AutoReleased", "EscrowReleased"}
  const CANCELS: set<string> := {"EscrowCancelled", "EscrowCanceled"}
  const AUTO_CANCELS: set<string> := {"EscrowAutoCancelled", "EscrowAutoCncl"}
  const OTHERS: set<string> := {"EscrowFunded", "EscrowShipped", "EscrowCompleted", "DisputeRaised", "DisputeResolved",
                                "EscrowExpired", "RefundApproved"}

  predicate KindNamed(kind: EventKind, n: string) {
    match kind
    case EscrowFunded => n == "EscrowFunded"
    case EscrowShipped => n == "EscrowShipped"
    case EscrowCompleted => n == "EscrowCompleted"
    case EscrowCancelled => n in CANCELS
    case DisputeRaised => n == "DisputeRaised"
    case DisputeResolved => n == "DisputeResolved"
    case AutoReleased => n in RELEASES
    case EscrowAutoCancelled => n in AUTO_CANCELS
    case EscrowExpired => n == "EscrowExpired"
    case RefundApproved => n == "RefundApproved"
    case UnknownKind(m) => m == n && n !in RELEASES + CANCELS + AUTO_CANCELS + OTHERS
  }

  /** Every field of the sync, read off the event. */
  ghost predicate Asks(raw: RawEvent, id: Id, e: ChainEvent)
    requires Usable(raw)
  {
    var data := Payload(raw);
    && e.escrowId == id
    && KindNamed(e.kind, Name(raw))
    && (TextAt(data, "tracking_id", e.trackingId)
        || (TextAt(data, "tracking_id", None) && TextAt(data, "trackingId", e.trackingId)))
    && (e.trackingId.None? ==> TextAt(data, "tracking_id", None) && TextAt(data, "trackingId", None))
    && (if Name(raw) in RELEASES then e.txHash == Some(raw.id) else TextAt(data, "txHash", e.txHash))
    && TextAt(data, "reason", e.reason)
    && (e.resolution == Some(Refund) <==> Says(data, "refund"))
    && (e.resolution == Some(Release) <==> Says(data, "release"))
  }

  lemma NameExactly(n: string, kind: EventKind)
    ensures EventName(n) == kind <==> KindNamed(kind, n)
  {}

  lemma UpperWords()
    ensures L.Upper("refund") == "REFUND" && L.Upper("release") == "RELEASE"
  {
    assert L.Upper("refund")[0] == 'R' && L.Upper("refund")[1] == 'E' && L.Upper("refund")[2] == 'F';
    assert L.Upper("release")[0] == 'R' && L.Upper("release")[1] == 'E' && L.Upper("release")[2] == 'L';
  }

  lemma EmptyWord()
    ensures L.Upper("") == "" && !L.SameWord("", "refund") && !L.SameWord("", "release")
  {}

  lemma ResolutionExactly(data: map<string, Value>)
    requires "resolution" in data
    ensures ParseResolution(data["resolution"]) == Some(Refund) <==> Says(data, "refund")
    ensures ParseResolution(data["resolution"]) == Some(Release) <==> Says(data, "release")
  {
    hide L.Upper, L.SameWord;
    UpperWords();
    var v := data["resolution"];
    var text := match v
      case Text(t) => t
      case List(items) => if |items| == 1 && items[0].Text? then items[0].text else ""
      case _ => "";
    L.UpperExactly(text, "refund");
    L.UpperExactly(text, "release");
    EmptyWord();
  }

  lemma ReleaseNames(n: string, kind: EventKind)
    requires KindNamed(kind, n)
    ensures kind.AutoReleased? <==> n in RELEASES
  {}

  lemma NothingSaid(data: map<string, Value>)
    requires "resolution" !in data
    ensures !Says(data, "refund") && !Says(data, "release")
  {}

  lemma ThreeResolutions(r: Option<Resolution>)
    ensures r == Some(Refund) || r == Some(Release) || r == None
  {
    if r.Some? { assert r.value == Refund || r.value == Release; }
  }

  lemma AsksOnce(raw: RawEvent, id: Id, e: ChainEvent, f: ChainEvent)
    requires Usable(raw) && Asks(raw, id, e) && Asks(raw, id, f)
    ensures e == f
  {
    hide KindNamed, Says;
    NameExactly(Name(raw), e.kind);
    NameExactly(Name(raw), f.kind);
    ThreeResolutions(e.resolution);
    ThreeResolutions(f.resolution);
    assert e.trackingId == f.trackingId;
  }

  lemma DispatchAsks(db: Db, raw: RawEvent, id: Id)
    requires Mapped(db) && AddressedTo(db, raw, id)
    ensures Dispatch(db, raw).Some? && Asks(raw, id, Dispatch(db, raw).value)
  {
    hide ParseResolution, EventName, KindNamed, Says;
    DispatchExactly(db, raw, id);
    var f := Dispatch(db, raw).value;
    NameExactly(Name(raw), f.kind);
    ReleaseNames(Name(raw), f.kind);
    if "resolution" in Payload(raw) { ResolutionExactly(Payload(raw)); } else { NothingSaid(Payload(raw)); }
  }

  /** A mapped event is dispatched as exactly the sync its topics and payload spell out. */
  lemma DispatchMeans(db: Db, raw: RawEvent, id: Id, e: ChainEvent)
    requires Mapped(db) && AddressedTo(db, raw, id)
    ensures Dispatch(db, raw) == Some(e) <==> Asks(raw, id, e)
  {
    hide Asks, Dispatch;
    DispatchAsks(db, raw, id);
    if Asks(raw, id, e) { AsksOnce(raw, id, e, Dispatch(db, raw).value); }
  }

  lemma DispatchNothing(db: Db, raw: RawEvent)
    requires Mapped(db)
    ensures Dispatch(db, raw).None? <==> forall id :: !AddressedTo(db, raw, id)
  {
    if Dispatch(db, raw).Some? {
      DispatchExactly(db, raw, Dispatch(db, raw).value.escrowId);
      assert AddressedTo(db, raw, Dispatch(db, raw).value.escrowId);
    }
    forall id | AddressedTo(db, raw, id) ensures Dispatch(db, raw).Some? { DispatchExactly(db, raw, id); }
  }

  // ── What it leaves ────────────────────────────────────────────────────────

  predicate StillOpen(s: State) { s !in {Completed, Released, Refunded, State.Cancelled} }

  /** One row is replaced if the move is due, and nothing changes otherwise. */
  predicate Moves(a: Db, b: Db, id: Id, due: bool, row: Escrow) { if due then OnlyRow(a, b, id, row) else b == a }

  /** The event's tracking id under either key, else the row's, else the empty text. */
  predicate TrackingFor(data: map<string, Value>, r: Escrow, t: string) {
    || TextAt(data, "tracking_id", Some(t))
    || (TextAt(data, "tracking_id", None)
        && (|| TextAt(data, "trackingId", Some(t))
            || (TextAt(data, "trackingId", None) && (r.trackingId == Some(t) || (r.trackingId == None && t == "")))))
  }

  predicate HashFor(raw: RawEvent, r: Escrow, hash: string) {
    if raw.id != "" then hash == raw.id
    else r.autoReleaseTxHash == Some(hash) || (r.autoReleaseTxHash == None && hash == "")
  }

  predicate IsFirst(ds: seq<Dispute>, id: Id, i: nat)
    requires i < |ds|
  {
    ds[i].escrowId == id && forall j :: 0 <= j < i ==> ds[j].escrowId != id
  }

  /** The state, with a new open dispute that has the event's reason; not on a second dispute row. */
  predicate Raises(a: Db, b: Db, id: Id, reason: string)
    requires id in a.escrows
  {
    var r := a.escrows[id];
    if StillOpen(r.state) && r.state != State.Disputed
       && forall i :: 0 <= i < |a.disputes| ==> a.disputes[i].escrowId != id
    then && b.order == a.order && b.escrows == a.escrows[id := r.(state := State.Disputed)]
         && b.disputes == a.disputes + [Dispute(id, reason, Open, None)]
    else b == a
  }

  /** The state, and the escrow's first dispute, if there is one, resolved; not when it already is. */
  predicate Settles(a: Db, b: Db, id: Id, state: State, now: Time)
    requires id in a.escrows
  {
    var r := a.escrows[id];
    if StillOpen(r.state)
       && forall i :: 0 <= i < |a.disputes| && IsFirst(a.disputes, id, i) ==> a.disputes[i].status != Resolved
    then && b.order == a.order && b.escrows == a.escrows[id := r.(state := state)]
         && |b.disputes| == |a.disputes|
         && forall i :: 0 <= i < |a.disputes| ==>
              b.disputes[i] == if IsFirst(a.disputes, id, i) then Dispute(id, a.disputes[i].reason, Resolved, Some(now))
                               else a.disputes[i]
    else b == a
  }

  /** The tables after an event, by its name and payload. */
  ghost predicate Leaves(a: Db, b: Db, raw: RawEvent, id: Id, now: Time)
    requires AddressedTo(a, raw, id)
  {
    var n, data, r := Name(raw), Payload(raw), a.escrows[id];
    var open := StillOpen(r.state);
    && (n == "EscrowFunded" ==> Moves(a, b, id, r.state == Created, r.(state := Funded)))
    && (n == "EscrowShipped" ==>
          exists t: string :: TrackingFor(data, r, t) &&
            Moves(a, b, id, r.state == Created || r.state == Funded,
                  r.(state := Shipped, trackingId := Some(t), shippedAt := Some(now))))
    && (n == "EscrowCompleted" ==> Moves(a, b, id, open, r.(state := Completed)))
    && (n in CANCELS + AUTO_CANCELS ==>
          Moves(a, b, id, open, r.(state := State.Cancelled, cancelledAt := Some(now))))
    && (n in {"EscrowExpired", "RefundApproved"} ==> Moves(a, b, id, open, r.(state := Refunded)))
    && (n in RELEASES ==>
          exists hash: string :: HashFor(raw, r, hash) &&
            Moves(a, b, id, open, r.(state := Released, autoReleaseTxHash := Some(hash))))
    && (n == "DisputeRaised" ==>
          exists reason: string :: Raises(a, b, id, reason) &&
            (TextAt(data, "reason", Some(reason)) || (TextAt(data, "reason", None) && reason == "on-chain dispute")))
    && (n == "DisputeResolved" && Says(data, "refund") ==> Settles(a, b, id, Refunded, now))
    && (n == "DisputeResolved" && !Says(data, "refund") ==> Settles(a, b, id, Completed, now))
    && (n !in RELEASES + CANCELS + AUTO_CANCELS + OTHERS ==> b == a)
  }

  /** A dispute raised against an open escrow that has a dispute row already: the unique index rejects it. */
  predicate Rejected(db: Db, raw: RawEvent, id: Id)
    requires AddressedTo(db, raw, id)
  {
    && Name(raw) == "DisputeRaised" && StillOpen(db.escrows[id].state) && db.escrows[id].state != State.Disputed
    && exists i :: 0 <= i < |db.disputes| && db.disputes[i].escrowId == id
  }

  lemma SyncRaises(db: Db, e: ChainEvent, now: Time)
    requires e.kind.DisputeRaised? && e.escrowId in db.escrows
    ensures var reason := if e.reason.Some? then e.reason.value else "on-chain dispute";
            Raises(db, Sync(db, e, now).0, e.escrowId, reason)
    ensures var r := db.escrows[e.escrowId];
            Sync(db, e, now).1.Failed? <==>
              && StillOpen(r.state) && r.state != State.Disputed
              && exists i :: 0 <= i < |db.disputes| && db.disputes[i].escrowId == e.escrowId
  {
    SyncUnfold(db, e, now);
    var i := FindDispute(db.disputes, e.escrowId);
    if i.Some? { assert db.disputes[i.value].escrowId == e.escrowId; }
  }

  lemma SyncResolves(db: Db, e: ChainEvent, now: Time)
    requires e.kind.DisputeResolved? && e.escrowId in db.escrows
    ensures var state := if e.resolution == Some(Refund) then Refunded else Completed;
            Settles(db, Sync(db, e, now).0, e.escrowId, state, now)
    ensures !Sync(db, e, now).1.Failed?
  {
    SyncUnfold(db, e, now);
    var i := FindDispute(db.disputes, e.escrowId);
    forall k | 0 <= k < |db.disputes| ensures IsFirst(db.disputes, e.escrowId, k) <==> i == Some(k) {
      if i.Some? { assert db.disputes[i.value].escrowId == e.escrowId; }
    }
  }

  /** The events that concern the row alone. */
  lemma SyncMoves(db: Db, raw: RawEvent, id: Id, e: ChainEvent, now: Time)
    requires AddressedTo(db, raw, id) && Asks(raw, id, e) && !e.kind.DisputeRaised? && !e.kind.DisputeResolved?
    ensures Leaves(db, Sync(db, e, now).0, raw, id, now) && !Sync(db, e, now).1.Failed?
  {
    hide Says;
    SyncUnfold(db, e, now);
    var data, r := Payload(raw), db.escrows[id];
    if e.kind.EscrowShipped? {
      var t := if e.trackingId.Some? then e.trackingId.value else if r.trackingId.Some? then r.trackingId.value else "";
      assert TrackingFor(data, r, t);
    } else if e.kind.AutoReleased? {
      assert HashFor(raw, r, Truthy(e.txHash, r.autoReleaseTxHash));
    }
  }

  /** A mapped event without fault leaves exactly the tables that its name and payload call for. */
  lemma SyncLeaves(db: Db, raw: RawEvent, id: Id, e: ChainEvent, now: Time)
    requires AddressedTo(db, raw, id) && Asks(raw, id, e)
    ensures Leaves(db, Sync(db, e, now).0, raw, id, now)
    ensures Sync(db, e, now).1.Failed? <==> Rejected(db, raw, id)
  {
    hide Sync, Says;
    if e.kind.DisputeRaised? {
      SyncRaises(db, e, now);
    } else if e.kind.DisputeResolved? {
      SyncResolves(db, e, now);
    } else {
      SyncMoves(db, raw, id, e, now);
    }
  }

  // ── One event through the poller ──────────────────────────────────────────

  /** Recorded as a dead letter and passed over, with the tables as they were. */
  predicate DeadLettered(s: Poller, n: Poller, go: bool, raw: RawEvent) {
    go && n.db == s.db && n.cursor == s.cursor && n.retries == s.retries && n.dead == s.dead + [raw.id]
  }

  /** A failed sync writes nothing and stops the batch, until its fifth failure in a row dead-letters it. */
  predicate FailureCounted(s: Poller, n: Poller, go: bool, raw: RawEvent) {
    var failures := 1 + if raw.id in s.retries then s.retries[raw.id] else 0;
    && n.db == s.db && n.cursor == s.cursor
    && (go <==> failures >= 5)
    && n.dead == (if failures >= 5 then s.dead + [raw.id] else s.dead)
    && n.retries == if failures >= 5 then s.retries - {raw.id} else s.retries[raw.id := failures]
  }

  predicate Forgotten(s: Poller, n: Poller, go: bool, raw: RawEvent) {
    go && n.cursor == s.cursor && n.dead == s.dead && n.retries == s.retries - {raw.id}
  }

  ghost predicate Handled(s: Poller, n: Poller, go: bool, raw: RawEvent, id: Id, fault: Fault, now: Time)
    requires AddressedTo(s.db, raw, id)
  {
    if fault.SyncFails? || Rejected(s.db, raw, id) then FailureCounted(s, n, go, raw)
    else Forgotten(s, n, go, raw) && Leaves(s.db, n.db, raw, id, now)
  }

  lemma RejectedLeaves(a: Db, b: Db, raw: RawEvent, id: Id, now: Time)
    requires AddressedTo(a, raw, id) && Rejected(a, raw, id) && Leaves(a, b, raw, id, now)
    ensures b == a
  {}

  /**
   * Every event, with every fault: one without usable topics or id, or whose id no row carries, is
   * dead-lettered; a failed lookup stops the batch with nothing changed; a failed or rejected sync is
   * counted; any other leaves the tables its name and payload call for.
   */
  lemma ProcessExactly(s: Poller, raw: RawEvent, fault: Fault, now: Time)
    requires Mapped(s.db)
    ensures var (n, go) := Process(s, raw, fault, now);
            && (!Usable(raw) ==> DeadLettered(s, n, go, raw))
            && (Usable(raw) && fault.LookupFails? ==> n == s && !go)
            && (Usable(raw) && !fault.LookupFails? ==>
                  && ((forall id :: !AddressedTo(s.db, raw, id)) ==> DeadLettered(s, n, go, raw))
                  && forall id :: AddressedTo(s.db, raw, id) ==> Handled(s, n, go, raw, id, fault, now))
  {
    hide Sync, Leaves, Asks, Rejected, Dispatch;
    var (n, go) := Process(s, raw, fault, now);
    DispatchNothing(s.db, raw);
    if Usable(raw) && !fault.LookupFails? {
      forall id | AddressedTo(s.db, raw, id) ensures Handled(s, n, go, raw, id, fault, now) {
        DispatchAsks(s.db, raw, id);
        SyncLeaves(s.db, raw, id, Dispatch(s.db, raw).value, now);
        if Rejected(s.db, raw, id) { RejectedLeaves(s.db, Sync(s.db, Dispatch(s.db, raw).value, now).0, raw, id, now); }
      }
    }
  }
}
