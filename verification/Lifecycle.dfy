/**
 * Every writer of an escrow as one atomic read-check-write step, and what all of them
 * together keep over any run.
 */
module Lifecycle {
  import opened EscrowTables
  import opened ChainSync

  /** What the contract answers about an escrow before a pending one is cancelled. */
  datatype ChainView = CallFailed | Absent | Present(state: string, refundAccepted: bool)

  /** The fields of a Horizon payment that decide what it funds; an unparsable amount is None. */
  datatype Payment = Payment(to: Option<Address>, amount: Option<int>, asset: Option<string>)

  datatype Action =
    | Chain(event: ChainEvent, now: Time)
    | Create(id: Id, vendor: Address, buyer: Address, itemRef: string, amount: int, currency: string)
    | Cancel(id: Id, caller: Address, isAdmin: bool, now: Time)
    | CancelPending(id: Id, caller: Address, isAdmin: bool, view: ChainView, now: Time)
    | Ship(id: Id, caller: Address, isAdmin: bool, tracking: string, now: Time)
    | OpenDispute(id: Id, caller: Address, admin: Address, reason: string)
    | Resolve(id: Id, resolution: Resolution, chainOk: bool, now: Time)
    | Pay(payment: Payment)
    | Deliver(id: Id, carrierDelivered: bool, chainOk: bool, now: Time)
    | ClaimRelease(id: Id, now: Time)
    | RecordRelease(id: Id, txHash: string, now: Time)
    | ClearRelease(id: Id)

  datatype Reply = Done | BadRequest | Forbidden | NotFound | Conflict | Unavailable

  // ── Text helpers of the entry points ──────────────────────────────────────

  /** The white space and line terminators that `String.prototype.trim` removes. */
  predicate Space(c: char) {
    var u := c as int;
    || 0x9 <= u <= 0xD || u == 0x20 || u == 0xA0 || u == 0x1680 || 0x2000 <= u <= 0x200A
    || u == 0x2028 || u == 0x2029 || u == 0x202F || u == 0x205F || u == 0x3000 || u == 0xFEFF
  }

  function TrimStart(s: string): string { if s != "" && Space(s[0]) then TrimStart(s[1..]) else s }

  function TrimEnd(s: string): string {
    if s != "" && Space(s[|s| - 1]) then TrimEnd(s[..|s| - 1]) else s
  }

  function Trim(s: string): string { TrimEnd(TrimStart(s)) }

  function Upper(s: string): string {
    seq(|s|, i requires 0 <= i < |s| => if 'a' <= s[i] <= 'z' then (s[i] as int - 32) as char else s[i])
  }

  /** The same letter, or the two cases of one ASCII letter. */
  predicate SameLetter(c: char, d: char) {
    || c == d
    || ('a' <= c <= 'z' && c as int == d as int + 32)
    || ('a' <= d <= 'z' && d as int == c as int + 32)
  }

  predicate SameWord(s: string, t: string) { |s| == |t| && forall i :: 0 <= i < |s| ==> SameLetter(s[i], t[i]) }

  /** Comparing in upper case ignores the case of ASCII letters and nothing else. */
  lemma UpperExactly(s: string, t: string)
    ensures Upper(s) == Upper(t) <==> SameWord(s, t)
  {
    if Upper(s) == Upper(t) {
      forall i | 0 <= i < |s| ensures SameLetter(s[i], t[i]) { assert Upper(s)[i] == Upper(t)[i]; }
    }
  }

  // ── The payment webhook ───────────────────────────────────────────────────

  const PAGE_SIZE: nat := 20

  /** The `take` newest escrows of a vendor among the first `n` of the creation order. */
  function VendorPage(db: Db, vendor: Address, n: nat, take: nat): (page: seq<Id>)
    requires n <= |db.order|
    ensures forall id :: id in page ==> id in db.escrows && db.escrows[id].vendor == vendor
  {
    if n == 0 || take == 0 then []
    else
      var id := db.order[n - 1];
      if id in db.escrows && db.escrows[id].vendor == vendor
      then [id] + VendorPage(db, vendor, n - 1, take - 1)
      else VendorPage(db, vendor, n - 1, take)
  }

  /** Whether a payment funds a row: pending, exact amount, same asset. */
  predicate Funds(row: Escrow, p: Payment) {
    && row.state.Created?
    && p.amount == Some(row.amount)
    && Upper(if p.asset.Some? then p.asset.value else "XLM") == Upper(row.currency)
  }

  function Select(db: Db, page: seq<Id>, p: Payment): (ids: seq<Id>)
    requires forall id :: id in page ==> id in db.escrows
    ensures forall id :: id in ids <==> id in page && Funds(db.escrows[id], p)
  {
    if page == [] then []
    else (if Funds(db.escrows[page[0]], p) then [page[0]] else []) + Select(db, page[1..], p)
  }

  /** The escrows a payment funds, in the order the loop visits them. */
  function Funded(db: Db, p: Payment): (ids: seq<Id>)
    ensures forall id :: id in ids ==> id in db.escrows && db.escrows[id].state.Created?
  {
    if p.to.None? || p.to.value == "" then []
    else Select(db, VendorPage(db, p.to.value, |db.order|, PAGE_SIZE), p)
  }

  /** `updateState(id, 'FUNDED')` for each id in turn, without looking at the row again. */
  function FundAll(db: Db, ids: seq<Id>): Db
    requires forall id :: id in ids ==> id in db.escrows
    decreases |ids|
  {
    if ids == [] then db
    else FundAll(PutRow(db, ids[0], db.escrows[ids[0]].(state := State.Funded)), ids[1..])
  }

  // ── One step of one writer ────────────────────────────────────────────────

  predicate Participant(r: Escrow, caller: Address) { r.vendor == caller || r.buyer == caller }

  function Settlement(resolution: Resolution): State {
    if resolution.Refund? then Refunded else Completed
  }

  function CreateStep(db: Db, a: Action): (Db, Reply)
    requires a.Create?
  {
    if a.amount <= 0 || a.buyer == a.vendor then (db, BadRequest)
    else if a.id in db.escrows
         || exists k :: k in db.escrows && db.escrows[k].vendor == a.vendor && db.escrows[k].itemRef == a.itemRef
    then (db, Conflict)
    else
      var row := Escrow(None, a.buyer, a.vendor, a.itemRef, a.amount, a.currency, Created,
                        None, None, None, None, None, None, None);
      (PutRow(db, a.id, row).(order := db.order + [a.id]), Done)
  }

  function OnRow(db: Db, id: Id, row: Escrow): (Db, Reply) { (PutRow(db, id, row), Done) }

  function CancelPendingStep(db: Db, r: Escrow, a: Action): (Db, Reply)
    requires a.CancelPending?
  {
    if !a.isAdmin && !Participant(r, a.caller) then (db, Forbidden)
    else if !r.state.Created? then (db, Conflict)
    else
      var cancelled := r.(state := State.Cancelled, cancelledAt := Some(a.now));
      if r.contractId.None? then OnRow(db, a.id, cancelled)
      else match a.view
        case CallFailed => (db, Unavailable)
        case Absent => OnRow(db, a.id, cancelled)
        case Present(state, refunded) =>
          if state == "FUNDED" then (if refunded then OnRow(db, a.id, cancelled) else (db, Unavailable))
          else if state != "CREATED" then (db, Conflict)
          else OnRow(db, a.id, cancelled)
  }

  function OpenDisputeStep(db: Db, r: Escrow, a: Action): (Db, Reply)
    requires a.OpenDispute?
  {
    if a.caller != a.admin && !Participant(r, a.caller) then (db, Forbidden)
    else if !(r.state.Funded? || r.state.Shipped? || r.state.Delivered?) then (db, Conflict)
    else match InsertDispute(db, a.id, a.reason)
      case None => (db, Conflict)
      case Some(d) => OnRow(d, a.id, r.(state := State.Disputed))
  }

  function ResolveStep(db: Db, r: Escrow, a: Action): (Db, Reply)
    requires a.Resolve?
  {
    if !r.state.Disputed? || r.contractId.None? then (db, Conflict)
    else if !a.chainOk then (db, Unavailable)
    else
      var i := FindPending(db.disputes, a.id);
      var d := if i.Some? then ResolveAt(db, i.value, a.now) else db;
      OnRow(d, a.id, r.(state := Settlement(a.resolution)))
  }

  /** Claim, contract call, `markDelivered`; a failed call clears the claim again. */
  function DeliverStep(db: Db, r: Escrow, a: Action): (Db, Reply)
    requires a.Deliver?
  {
    if r.trackingId.None? || r.trackingId.value == "" || r.contractId.None? || !a.carrierDelivered
       || !r.state.Shipped? || r.deliveryRecordedAt.Some? then (db, Done)
    else if !a.chainOk then (db, Unavailable)
    else OnRow(db, a.id, r.(state := State.Delivered, deliveredAt := Some(a.now), deliveryRecordedAt := Some(a.now)))
  }

  function RowStep(db: Db, a: Action): (Db, Reply)
    requires !a.Chain? && !a.Create? && !a.Pay?
  {
    if a.Ship? && |Trim(a.tracking)| < 3 then (db, BadRequest)
    else if a.id !in db.escrows then (db, NotFound) else
    var r := db.escrows[a.id];
    match a
    case Cancel(id, caller, isAdmin, now) =>
      if !isAdmin && !Participant(r, caller) then (db, Forbidden)
      else if !r.state.Funded? then (db, Conflict)
      else OnRow(db, id, r.(state := State.Cancelled, cancelledAt := Some(now)))
    case CancelPending(_, _, _, _, _) => CancelPendingStep(db, r, a)
    case Ship(id, caller, isAdmin, tracking, now) =>
      if !isAdmin && r.vendor != caller then (db, Forbidden)
      else if !r.state.Funded? || (r.trackingId.Some? && r.trackingId.value != "") then (db, Conflict)
      else OnRow(db, id, r.(state := State.Shipped, trackingId := Some(Trim(tracking)), shippedAt := Some(now)))
    case OpenDispute(_, _, _, _) => OpenDisputeStep(db, r, a)
    case Resolve(_, _, _, _) => ResolveStep(db, r, a)
    case Deliver(_, _, _, _) => DeliverStep(db, r, a)
    case ClaimRelease(id, now) =>
      if r.autoReleaseSubmittedAt.Some? then (db, Conflict)
      else OnRow(db, id, r.(autoReleaseSubmittedAt := Some(now)))
    case RecordRelease(id, txHash, now) =>
      OnRow(db, id, r.(autoReleaseSubmittedAt := Some(now), autoReleaseTxHash := Some(txHash)))
    case ClearRelease(id) => OnRow(db, id, r.(autoReleaseSubmittedAt := None))
  }

  function Step(db: Db, a: Action): (Db, Reply) {
    match a
    case Chain(e, now) =>
      var (next, out) := Sync(db, e, now); (next, if out.Failed? then Conflict else Done)
    case Create(_, _, _, _, _, _) => CreateStep(db, a)
    case Pay(p) =>
      if p.to.None? || p.to.value == "" then (db, BadRequest) else (FundAll(db, Funded(db, p)), Done)
    case _ => RowStep(db, a)
  }

  lemma ChainStepIsSync(db: Db, e: ChainEvent, now: Time)
    ensures Step(db, Chain(e, now)).0 == Sync(db, e, now).0
  {}

  function Run(db: Db, acts: seq<Action>): Db
    decreases |acts|
  {
    if acts == [] then db else Run(Step(db, acts[0]).0, acts[1..])
  }

  lemma {:induction false} RunConcat(db: Db, xs: seq<Action>, ys: seq<Action>)
    ensures Run(db, xs + ys) == Run(Run(db, xs), ys)
    decreases |xs|
  {
    if xs == [] {
      assert xs + ys == ys;
    } else {
      assert (xs + ys)[0] == xs[0] && (xs + ys)[1..] == xs[1..] + ys;
      RunConcat(Step(db, xs[0]).0, xs[1..], ys);
    }
  }

  // ── No writer moves an escrow back ────────────────────────────────────────

  lemma {:induction false} FundAllAdvances(db: Db, ids: seq<Id>)
    requires forall id :: id in ids ==>
               id in db.escrows && (db.escrows[id].state.Created? || db.escrows[id].state.Funded?)
    ensures Advances(db, FundAll(db, ids))
    ensures FundAll(db, ids).disputes == db.disputes
    ensures FundAll(db, ids).escrows.Keys == db.escrows.Keys
    ensures forall id :: id in db.escrows ==>
              FundAll(db, ids).escrows[id]
              == if id in ids then db.escrows[id].(state := State.Funded) else db.escrows[id]
    decreases |ids|
  {
    if ids != [] {
      var row := db.escrows[ids[0]].(state := State.Funded);
      var next := PutRow(db, ids[0], row);
      PutRowAdvances(db, ids[0], row);
      FundAllAdvances(next, ids[1..]);
      AdvancesTransitive(db, next, FundAll(db, ids));
    }
  }

  lemma {:induction false} FundAllOrder(db: Db, ids: seq<Id>)
    requires forall id :: id in ids ==> id in db.escrows
    ensures FundAll(db, ids).order == db.order
    decreases |ids|
  {
    if ids != [] { FundAllOrder(PutRow(db, ids[0], db.escrows[ids[0]].(state := State.Funded)), ids[1..]); }
  }

  /** Apart from the two dispute actions, a step on a row is one write to that row. */
  lemma RowStepIsPut(db: Db, a: Action)
    requires !a.Chain? && !a.Create? && !a.Pay? && !a.OpenDispute? && !a.Resolve?
    requires a.id in db.escrows
    ensures var next := RowStep(db, a).0;
            && a.id in next.escrows
            && next == PutRow(db, a.id, next.escrows[a.id])
            && RowAdvances(db.escrows[a.id], next.escrows[a.id])
            && (next.escrows[a.id].state.Disputed? ==> db.escrows[a.id].state.Disputed?)
  {}

  lemma DisputeActionAdvances(db: Db, a: Action)
    requires (a.OpenDispute? || a.Resolve?) && a.id in db.escrows
    ensures Advances(db, RowStep(db, a).0)
  {
    if RowStep(db, a).1.Done? {
      var r := db.escrows[a.id];
      if a.OpenDispute? {
        DisputeThenRowAdvances(db, Insert(a.id, a.reason), a.id, r.(state := State.Disputed));
      } else {
        var i, row := FindPending(db.disputes, a.id), r.(state := Settlement(a.resolution));
        if i.Some? { DisputeThenRowAdvances(db, Settle(i.value, a.now), a.id, row); }
        else { PutRowAdvances(db, a.id, row); }
      }
    }
  }

  lemma MissingRow(db: Db, a: Action)
    requires !a.Chain? && !a.Create? && !a.Pay? && a.id !in db.escrows
    ensures RowStep(db, a).0 == db && Advances(db, db)
  {}

  lemma RowStepAdvances(db: Db, a: Action)
    requires !a.Chain? && !a.Create? && !a.Pay?
    ensures Advances(db, RowStep(db, a).0)
  {
    hide RowStep, Advances;
    if a.id !in db.escrows {
      MissingRow(db, a);
    } else if a.OpenDispute? || a.Resolve? {
      DisputeActionAdvances(db, a);
    } else {
      RowStepIsPut(db, a);
      PutRowAdvances(db, a.id, RowStep(db, a).0.escrows[a.id]);
    }
  }

  /** Every step of every writer only moves escrows and disputes forward. */
  lemma StepAdvances(db: Db, a: Action)
    ensures Advances(db, Step(db, a).0)
  {
    match a {
      case Chain(e, now) => SyncAdvances(db, e, now);
      case Create(_, _, _, _, _, _) =>
      case Pay(p) => FundAllAdvances(db, Funded(db, p));
      case _ => RowStepAdvances(db, a);
    }
  }

  lemma {:induction false} RunAdvances(db: Db, acts: seq<Action>)
    ensures Advances(db, Run(db, acts))
    decreases |acts|
  {
    if acts != [] {
      var next := Step(db, acts[0]).0;
      StepAdvances(db, acts[0]);
      RunAdvances(next, acts[1..]);
      AdvancesTransitive(db, next, Run(db, acts));
    }
  }

  /** A refused or failed request has written nothing. */
  lemma RefusalWritesNothing(db: Db, a: Action)
    ensures Step(db, a).1.Done? || Step(db, a).0 == db
  {
    if a.Chain? { SyncUnfold(db, a.event, a.now); }
  }

  /** The escrow a request names and the address it comes from, where the caller matters. */
  predicate FromStranger(db: Db, a: Action) {
    match a
    case Cancel(id, caller, isAdmin, _) => id in db.escrows && !isAdmin && !Participant(db.escrows[id], caller)
    case CancelPending(id, caller, isAdmin, _, _) =>
      id in db.escrows && !isAdmin && !Participant(db.escrows[id], caller)
    case Ship(id, caller, isAdmin, _, _) => id in db.escrows && !isAdmin && caller != db.escrows[id].vendor
    case OpenDispute(id, caller, admin, _) =>
      id in db.escrows && caller != admin && !Participant(db.escrows[id], caller)
    case _ => false
  }

  /** A run with every stranger's request left out. */
  function Admitted(db: Db, acts: seq<Action>): seq<Action>
    decreases |acts|
  {
    if acts == [] then []
    else if FromStranger(db, acts[0]) then Admitted(db, acts[1..])
    else [acts[0]] + Admitted(Step(db, acts[0]).0, acts[1..])
  }

  /** A run is unchanged by any requests its strangers made along the way. */
  lemma {:induction false} StrangersAreInvisible(db: Db, acts: seq<Action>)
    ensures Run(db, acts) == Run(db, Admitted(db, acts))
    decreases |acts|
  {
    if acts != [] {
      StrangersAreInvisible(Step(db, acts[0]).0, acts[1..]);
    }
  }

  /** The state changes the writers make between them: forward, and to DELIVERED only from SHIPPED. */
  predicate Allowed(s: State, t: State) {
    Rank(s) < Rank(t) && (t.Delivered? ==> s.Shipped?)
  }

  /** Step `a` takes escrow `id` from state `s` to state `t`. */
  predicate Takes(db: Db, a: Action, id: Id, s: State, t: State) {
    && id in db.escrows && db.escrows[id].state == s
    && id in Step(db, a).0.escrows && Step(db, a).0.escrows[id].state == t
  }

  lemma SyncNeverDelivers(db: Db, e: ChainEvent, now: Time, id: Id)
    requires id in db.escrows
    ensures id in Sync(db, e, now).0.escrows
    ensures Sync(db, e, now).0.escrows[id].state.Delivered? ==> db.escrows[id].state.Delivered?
  {
    SyncUnfold(db, e, now);
    if PlanOf(db, e, now).Do? {
      var ws := PlanOf(db, e, now).writes;
      assert !ws[|ws| - 1].row.state.Delivered?;
      PlanShape(db, e, now);
    }
  }

  lemma RowStepDelivers(db: Db, a: Action, id: Id)
    requires !a.Chain? && !a.Create? && !a.Pay?
    requires id in db.escrows
    ensures id in RowStep(db, a).0.escrows
    ensures RowStep(db, a).0.escrows[id].state.Delivered? ==>
              db.escrows[id].state.Delivered? || db.escrows[id].state.Shipped?
  {}

  lemma StepAllowed(db: Db, a: Action, id: Id, s: State, t: State)
    requires Takes(db, a, id, s, t) && s != t
    ensures Allowed(s, t)
  {
    StepAdvances(db, a);
    assert RowAdvances(db.escrows[id], Step(db, a).0.escrows[id]);
    match a {
      case Chain(e, now) => SyncNeverDelivers(db, e, now, id);
      case Create(_, _, _, _, _, _) =>
      case Pay(p) => FundAllAdvances(db, Funded(db, p));
      case _ => RowStepDelivers(db, a, id);
    }
  }

  /** A table of one escrow as created, mapped to the contract. */
  function OneEscrow(): Db {
    Db(map[0 := Escrow(Some(7), "B", "V", "item", 1, "XLM", Created,
                       None, None, None, None, None, None, None)], [0], [])
  }

  function Move(t: State): Action {
    var e := (k: EventKind) => Chain(ChainEvent(k, 0, Some("track"), None, None, None), 0);
    match t
    case Created => e(UnknownKind(""))
    case Funded => e(EscrowFunded)
    case Shipped => e(EscrowShipped)
    case Delivered => Deliver(0, true, true, 0)
    case Disputed => e(DisputeRaised)
    case Completed => e(EscrowCompleted)
    case Released => e(AutoReleased)
    case Refunded => e(EscrowExpired)
    case Cancelled => e(EscrowCancelled)
  }

  /** How the escrow of `OneEscrow` stands after moves to `s` that were allowed. */
  predicate StandsAt(db: Db, s: State) {
    && 0 in db.escrows && db.escrows[0].state == s && db.escrows[0].contractId.Some?
    && (!s.Disputed? && !Terminal(s) ==> !HasDispute(db, 0))
    && (s.Shipped? ==> db.escrows[0].trackingId == Some("track"))
    && (Rank(s) <= Rank(Shipped) ==> db.escrows[0].deliveryRecordedAt.None?)
  }

  lemma ChainMoveTakes(db: Db, s: State, t: State)
    requires StandsAt(db, s) && Allowed(s, t) && !t.Delivered?
    ensures Takes(db, Move(t), 0, s, t) && StandsAt(Step(db, Move(t)).0, t)
  {
    hide Sync, Step;
    var a := Move(t);
    assert !Settled(db, a.event);
    ChainStepIsSync(db, a.event, a.now);
    SyncReaches(db, a.event, a.now);
  }

  lemma MoveTakes(db: Db, s: State, t: State)
    requires StandsAt(db, s) && Allowed(s, t)
    ensures Takes(db, Move(t), 0, s, t) && StandsAt(Step(db, Move(t)).0, t)
  {
    if !t.Delivered? { ChainMoveTakes(db, s, t); }
  }

  /** Moves that bring a created escrow to a state that is not final. */
  function Path(s: State): seq<Action> {
    if s.Created? then [] else if s.Delivered? then [Move(Shipped), Move(Delivered)] else [Move(s)]
  }

  lemma RunOne(db: Db, a: Action)
    ensures Run(db, [a]) == Step(db, a).0
  {
    assert [a][1..] == [];
  }

  lemma RunTwo(db: Db, a: Action, b: Action)
    ensures Run(db, [a, b]) == Step(Step(db, a).0, b).0
  {
    assert [a, b][1..] == [b];
    RunOne(Step(db, a).0, b);
  }

  lemma PathReaches(s: State)
    ensures StandsAt(Run(OneEscrow(), Path(s)), s)
  {
    hide Step, Move;
    var db := OneEscrow();
    assert StandsAt(db, Created);
    if s.Delivered? {
      MoveTakes(db, Created, Shipped);
      var mid := Step(db, Move(Shipped)).0;
      MoveTakes(mid, Shipped, Delivered);
      RunTwo(db, Move(Shipped), Move(Delivered));
    } else if !s.Created? {
      MoveTakes(db, Created, s);
      RunOne(db, Move(s));
    }
  }

  /** `Allowed` is exactly the set of state changes that occur in runs from a created, mapped escrow. */
  lemma AllowedExactly(s: State, t: State)
    requires s != t
    ensures Allowed(s, t) <==> exists acts: seq<Action>, a: Action :: Takes(Run(OneEscrow(), acts), a, 0, s, t)
  {
    hide Takes, Run, Step;
    if Allowed(s, t) {
      PathReaches(s);
      MoveTakes(Run(OneEscrow(), Path(s)), s, t);
    }
    forall acts: seq<Action>, a: Action | Takes(Run(OneEscrow(), acts), a, 0, s, t) ensures Allowed(s, t) {
      StepAllowed(Run(OneEscrow(), acts), a, 0, s, t);
    }
  }

  /** How often a run changes the state of one escrow. */
  function Changes(db: Db, acts: seq<Action>, id: Id): nat
    decreases |acts|
  {
    if acts == [] then 0
    else
      var next := Step(db, acts[0]).0;
      (if id in db.escrows && id in next.escrows && next.escrows[id].state != db.escrows[id].state then 1 else 0)
      + Changes(next, acts[1..], id)
  }

  /** Over any run an escrow changes state at most five times, each time upwards. */
  lemma {:induction false} ChangesBounded(db: Db, acts: seq<Action>, id: Id)
    requires id in db.escrows
    ensures id in Run(db, acts).escrows
    ensures Changes(db, acts, id) <= Rank(Run(db, acts).escrows[id].state) - Rank(db.escrows[id].state) <= 5
    decreases |acts|
  {
    if acts != [] {
      var next := Step(db, acts[0]).0;
      StepAdvances(db, acts[0]);
      assert RowAdvances(db.escrows[id], next.escrows[id]);
      ChangesBounded(next, acts[1..], id);
    }
  }

  /** COMPLETED, RELEASED, REFUNDED and CANCELLED are left by no run. */
  lemma TerminalForever(db: Db, acts: seq<Action>, id: Id)
    requires id in db.escrows && Terminal(db.escrows[id].state)
    ensures id in Run(db, acts).escrows && Run(db, acts).escrows[id].state == db.escrows[id].state
  {
    RunAdvances(db, acts);
    assert RowAdvances(db.escrows[id], Run(db, acts).escrows[id]);
  }

  // ── Disputes against escrows ──────────────────────────────────────────────

  /** The escrow of a dispute row is disputed or finished; of a resolved row, completed or refunded. */
  predicate DisputeFits(db: Db, d: Dispute) {
    && d.escrowId in db.escrows
    && var s := db.escrows[d.escrowId].state;
       && (s.Disputed? || Terminal(s))
       && (d.status.Resolved? ==> s.Completed? || s.Refunded?)
  }

  ghost predicate DisputesConsistent(db: Db) {
    && (forall i, j :: 0 <= i < j < |db.disputes| ==> db.disputes[i].escrowId != db.disputes[j].escrowId)
    && (forall i :: 0 <= i < |db.disputes| ==> DisputeFits(db, db.disputes[i]))
    && (forall id :: id in db.escrows && db.escrows[id].state.Disputed? ==> FindPending(db.disputes, id).Some?)
  }

  /** Rewriting one row without touching disputes. */
  lemma PutKeepsDisputes(db: Db, id: Id, row: Escrow)
    requires DisputesConsistent(db)
    requires id in db.escrows ==> RowAdvances(db.escrows[id], row)
    requires row.state.Disputed? ==> id in db.escrows && db.escrows[id].state.Disputed?
    ensures DisputesConsistent(PutRow(db, id, row))
  {
    var next := PutRow(db, id, row);
    forall i | 0 <= i < |next.disputes| ensures DisputeFits(next, next.disputes[i]) {
      assert DisputeFits(db, db.disputes[i]);
    }
  }

  lemma RaiseKeepsDisputes(db: Db, id: Id, reason: string, row: Escrow)
    requires DisputesConsistent(db)
    requires id in db.escrows && !HasDispute(db, id) && row.state.Disputed?
    ensures DisputesConsistent(PutRow(InsertDispute(db, id, reason).value, id, row))
  {
    var next := PutRow(InsertDispute(db, id, reason).value, id, row);
    assert Pending(next.disputes[|db.disputes|]);
    forall i | 0 <= i < |db.disputes| ensures DisputeFits(next, next.disputes[i]) {
      assert DisputeFits(db, db.disputes[i]);
    }
    forall k | k in next.escrows && next.escrows[k].state.Disputed? ensures FindPending(next.disputes, k).Some? {
      if k != id {
        var i := FindPending(db.disputes, k).value;
        assert next.disputes[i] == db.disputes[i];
      }
    }
  }

  lemma ResolveKeepsDisputes(db: Db, i: nat, now: Time, id: Id, row: Escrow)
    requires DisputesConsistent(db)
    requires id in db.escrows && !Terminal(db.escrows[id].state)
    requires i < |db.disputes| && db.disputes[i].escrowId == id
    requires row.state.Completed? || row.state.Refunded?
    ensures DisputesConsistent(PutRow(ResolveAt(db, i, now), id, row))
  {
    var next := PutRow(ResolveAt(db, i, now), id, row);
    forall j | 0 <= j < |next.disputes| ensures DisputeFits(next, next.disputes[j]) {
      assert DisputeFits(db, db.disputes[j]);
    }
    forall k | k in next.escrows && next.escrows[k].state.Disputed? ensures FindPending(next.disputes, k).Some? {
      var j := FindPending(db.disputes, k).value;
      assert next.disputes[j] == db.disputes[j];
    }
  }

  /** In consistent tables the unique index never rejects a sync. */
  lemma SyncNeverFails(db: Db, e: ChainEvent, now: Time)
    requires DisputesConsistent(db)
    ensures !Sync(db, e, now).1.Failed?
  {
    SyncUnfold(db, e, now);
    var i := FindDispute(db.disputes, e.escrowId);
    if i.Some? { assert DisputeFits(db, db.disputes[i.value]); }
  }

  lemma SyncKeepsDisputes(db: Db, e: ChainEvent, now: Time)
    requires DisputesConsistent(db)
    ensures DisputesConsistent(Sync(db, e, now).0)
  {
    hide DisputesConsistent;
    SyncUnfold(db, e, now);
    SyncNeverFails(db, e, now);
    if PlanOf(db, e, now).Do? {
      PlanShape(db, e, now);
      var id, ws := e.escrowId, PlanOf(db, e, now).writes;
      if |ws| == 1 {
        PutKeepsDisputes(db, id, ws[0].row);
      } else if ws[0].Insert? {
        RaiseKeepsDisputes(db, id, ws[0].reason, ws[1].row);
      } else {
        ResolveKeepsDisputes(db, ws[0].index, ws[0].now, id, ws[1].row);
      }
    }
  }

  lemma {:induction false} FundAllKeepsDisputes(db: Db, ids: seq<Id>)
    requires DisputesConsistent(db)
    requires forall id :: id in ids ==>
               id in db.escrows && (db.escrows[id].state.Created? || db.escrows[id].state.Funded?)
    ensures DisputesConsistent(FundAll(db, ids))
    decreases |ids|
  {
    if ids != [] {
      var row := db.escrows[ids[0]].(state := State.Funded);
      PutKeepsDisputes(db, ids[0], row);
      FundAllKeepsDisputes(PutRow(db, ids[0], row), ids[1..]);
    }
  }

  lemma RowStepKeepsDisputes(db: Db, a: Action)
    requires !a.Chain? && !a.Create? && !a.Pay?
    requires DisputesConsistent(db)
    ensures DisputesConsistent(RowStep(db, a).0)
  {
    if a.id in db.escrows && RowStep(db, a).1.Done? {
      var r := db.escrows[a.id];
      if a.OpenDispute? {
        RaiseKeepsDisputes(db, a.id, a.reason, r.(state := State.Disputed));
      } else if a.Resolve? {
        ResolveKeepsDisputes(db, FindPending(db.disputes, a.id).value, a.now, a.id,
                             r.(state := Settlement(a.resolution)));
      } else {
        RowStepIsPut(db, a);
        PutKeepsDisputes(db, a.id, RowStep(db, a).0.escrows[a.id]);
      }
    }
  }

  /** Every step of every writer keeps disputes and escrows in agreement. */
  lemma StepKeepsDisputes(db: Db, a: Action)
    requires DisputesConsistent(db)
    ensures DisputesConsistent(Step(db, a).0)
  {
    match a {
      case Chain(e, now) => SyncKeepsDisputes(db, e, now);
      case Create(id, _, _, _, _, _) =>
        var next := Step(db, a).0;
        if id !in db.escrows && next != db { PutKeepsDisputes(db, id, next.escrows[id]); }
      case Pay(p) => FundAllKeepsDisputes(db, Funded(db, p));
      case _ => RowStepKeepsDisputes(db, a);
    }
  }

  lemma {:induction false} RunKeepsDisputes(db: Db, acts: seq<Action>)
    requires DisputesConsistent(db)
    ensures DisputesConsistent(Run(db, acts))
    decreases |acts|
  {
    if acts != [] {
      StepKeepsDisputes(db, acts[0]);
      RunKeepsDisputes(Step(db, acts[0]).0, acts[1..]);
    }
  }

  /** How many dispute rows of an escrow still await a decision. */
  function PendingCount(ds: seq<Dispute>, id: Id): nat {
    if ds == [] then 0
    else (if ds[0].escrowId == id && Pending(ds[0]) then 1 else 0) + PendingCount(ds[1..], id)
  }

  lemma {:induction false} PendingCountNone(ds: seq<Dispute>, id: Id)
    requires forall j :: 0 <= j < |ds| ==> ds[j].escrowId != id
    ensures PendingCount(ds, id) == 0
  {
    if ds != [] { PendingCountNone(ds[1..], id); }
  }

  lemma {:induction false} PendingCountUnique(ds: seq<Dispute>, id: Id, k: nat)
    requires k < |ds| && ds[k].escrowId == id && Pending(ds[k])
    requires forall j :: 0 <= j < |ds| && j != k ==> ds[j].escrowId != id
    ensures PendingCount(ds, id) == 1
  {
    if k == 0 { PendingCountNone(ds[1..], id); } else { PendingCountUnique(ds[1..], id, k - 1); }
  }

  /**
   * From any tables in agreement, mapped escrows included, whatever the writers do: a disputed escrow
   * has exactly one undecided dispute, and the escrow of a resolved dispute is completed or refunded
   * then and after any further run.
   */
  lemma DisputesOverRuns(start: Db, acts: seq<Action>, more: seq<Action>)
    requires DisputesConsistent(start)
    ensures var db := Run(start, acts);
            && DisputesConsistent(db)
            && (forall id :: id in db.escrows && db.escrows[id].state.Disputed? ==> PendingCount(db.disputes, id) == 1)
            && (forall i :: 0 <= i < |db.disputes| && db.disputes[i].status.Resolved? ==>
                  var id := db.disputes[i].escrowId;
                  && id in db.escrows && id in Run(db, more).escrows
                  && (db.escrows[id].state.Completed? || db.escrows[id].state.Refunded?)
                  && Run(db, more).escrows[id].state == db.escrows[id].state)
  {
    var db := Run(start, acts);
    RunKeepsDisputes(start, acts);
    forall id | id in db.escrows && db.escrows[id].state.Disputed? ensures PendingCount(db.disputes, id) == 1 {
      PendingCountUnique(db.disputes, id, FindPending(db.disputes, id).value);
    }
    forall i | 0 <= i < |db.disputes| && db.disputes[i].status.Resolved?
      ensures var id := db.disputes[i].escrowId;
              && id in db.escrows && id in Run(db, more).escrows
              && (db.escrows[id].state.Completed? || db.escrows[id].state.Refunded?)
              && Run(db, more).escrows[id].state == db.escrows[id].state
    {
      assert DisputeFits(db, db.disputes[i]);
      TerminalForever(db, more, db.disputes[i].escrowId);
    }
  }

  // ── Re-delivered events ───────────────────────────────────────────────────

  /** A run without the chain events already in `seen` or delivered before in the run. */
  function Once(acts: seq<Action>, seen: set<ChainEvent>): seq<Action> {
    if acts == [] then []
    else if acts[0].Chain? then
      (if acts[0].event in seen then [] else [acts[0]]) + Once(acts[1..], seen + {acts[0].event})
    else [acts[0]] + Once(acts[1..], seen)
  }

  /**
   * Between any steps of any writers, delivering a chain event again changes nothing:
   * a run and the run with every repeated delivery left out end in the same tables.
   */
  lemma {:induction false} RedeliveryIsInvisible(db: Db, acts: seq<Action>, seen: set<ChainEvent>)
    requires forall a :: a in acts && a.Chain? ==> a.event.escrowId in db.escrows
    requires forall e :: e in seen ==> Settled(db, e)
    ensures Run(db, acts) == Run(db, Once(acts, seen))
    decreases |acts|
  {
    if acts != [] {
      var a := acts[0];
      var next := Step(db, a).0;
      StepAdvances(db, a);
      forall e | e in seen ensures Settled(next, e) { SettledStable(db, next, e); }
      if a.Chain? {
        SyncSettles(db, a.event, a.now);
        RedeliveryIsInvisible(next, acts[1..], seen + {a.event});
        if a.event in seen {
          SettledExactly(db, a.event);
          assert [] + Once(acts[1..], seen + {a.event}) == Once(acts[1..], seen + {a.event});
        }
      } else {
        RedeliveryIsInvisible(next, acts[1..], seen);
      }
    }
  }
}
