/**
 * The Soroban poller: pages of contract events are applied in order from a persisted
 * cursor, a failing event stops its batch, and a quiet cycle winds the cursor back.
 */
module SorobanPoller {
  import opened EscrowTables
  import opened ChainSync
  import opened DecimalText
  import Lifecycle

  const START_LEDGER_MARGIN: nat := 10
  const MAX_SYNC_RETRIES: nat := 5
  const PAGE_LIMIT: nat := 100

  // ── Events as the RPC node serves them ────────────────────────────────────

  datatype Parsed = Parsed(topic0: Option<string>, topic1: Option<string>, data: map<string, Value>)

  /** `parsed` is None when the payload cannot be decoded. */
  datatype RawEvent = RawEvent(id: string, ledger: nat, parsed: Option<Parsed>)

  /** The contract's events so far and the last closed ledger. */
  datatype Chain = Chain(log: seq<RawEvent>, closed: nat)

  ghost predicate ValidChain(c: Chain) {
    && (forall i :: 0 <= i < |c.log| ==> c.log[i].ledger <= c.closed)
    && (forall i, j :: 0 <= i < j < |c.log| ==> c.log[i].ledger <= c.log[j].ledger)
    && (forall i, j :: 0 <= i < j < |c.log| ==> c.log[i].id != c.log[j].id)
  }

  /** Ledgers close and append events; nothing served before changes. */
  ghost predicate Grows(c: Chain, d: Chain) {
    && ValidChain(d)
    && c.closed <= d.closed
    && c.log <= d.log
    && (forall i :: |c.log| <= i < |d.log| ==> d.log[i].ledger > c.closed)
  }

  // ── From a raw event to a sync ────────────────────────────────────────────

  function EventName(name: string): EventKind {
    if name == "EscrowFunded" then EscrowFunded
    else if name == "EscrowShipped" then EscrowShipped
    else if name == "EscrowCompleted" then EscrowCompleted
    else if name == "EscrowCanceled" || name == "EscrowCancelled" then EscrowCancelled
    else if name == "DisputeRaised" then DisputeRaised
    else if name == "DisputeResolved" then DisputeResolved
    else if name == "EscrowReleased" || name == "AutoReleased" then AutoReleased
    else if name == "EscrowAutoCncl" || name == "EscrowAutoCancelled" then EscrowAutoCancelled
    else if name == "EscrowExpired" then EscrowExpired
    else if name == "RefundApproved" then RefundApproved
    else UnknownKind(name)
  }

  function StringField(data: map<string, Value>, key: string): Option<string> {
    if key in data && data[key].Text? then Some(data[key].text) else None
  }

  function ParseResolution(v: Value): Option<Resolution> {
    var variant := match v
      case Text(s) => s
      case List(items) => if |items| == 1 && items[0].Text? then items[0].text else ""
      case _ => "";
    var name := Lifecycle.Upper(variant);
    if name == "REFUND" then Some(Refund) else if name == "RELEASE" then Some(Release) else None
  }

  /** `findUnique({ where: { contractEscrowId } })`, scanning rows in creation order. */
  function FindByContract(db: Db, cid: nat, from: nat := 0): (r: Option<Id>)
    requires from <= |db.order|
    ensures r.Some? ==> r.value in db.escrows && db.escrows[r.value].contractId == Some(cid)
    decreases |db.order| - from
  {
    if from == |db.order| then None
    else if db.order[from] in db.escrows && db.escrows[db.order[from]].contractId == Some(cid)
    then Some(db.order[from])
    else FindByContract(db, cid, from + 1)
  }

  /** The id an event carries, when it carries a usable one. */
  function ContractIdOf(raw: RawEvent): Option<nat> {
    if raw.parsed.None? then None
    else
      var p := raw.parsed.value;
      if p.topic0.None? || p.topic1.None? || p.topic0.value == "" || p.topic1.value == "" then None
      else if "escrow_id" in p.data then ToContractEscrowId(p.data["escrow_id"]) else None
  }

  /** The sync an event asks for; None when no retry can ever make it applicable. */
  function Dispatch(db: Db, raw: RawEvent): (r: Option<ChainEvent>)
    ensures r.Some? ==> r.value.escrowId in db.escrows
  {
    var cid := ContractIdOf(raw);
    if cid.None? then None
    else match FindByContract(db, cid.value)
      case None => None
      case Some(id) =>
        var p := raw.parsed.value;
        var kind := EventName(p.topic0.value + p.topic1.value);
        var tracking := StringField(p.data, "tracking_id");
        Some(ChainEvent(
          kind, id,
          if tracking.Some? then tracking else StringField(p.data, "trackingId"),
          if kind.AutoReleased? then Some(raw.id) else StringField(p.data, "txHash"),
          StringField(p.data, "reason"),
          if "resolution" in p.data then ParseResolution(p.data["resolution"]) else None))
  }

  /** Every row is listed and the contract's id is unique, as the schema has it. */
  predicate Mapped(db: Db) {
    && (forall id :: id in db.escrows ==> id in db.order)
    && (forall i, j | i in db.escrows && j in db.escrows && i != j ::
          db.escrows[i].contractId.Some? ==> db.escrows[i].contractId != db.escrows[j].contractId)
  }

  lemma {:induction false} FindByContractReaches(db: Db, cid: nat, from: nat, i: nat)
    requires from <= i < |db.order| && db.order[i] in db.escrows && db.escrows[db.order[i]].contractId == Some(cid)
    ensures FindByContract(db, cid, from).Some?
    decreases i - from
  {
    if from < i { FindByContractReaches(db, cid, from + 1, i); }
  }

  /** An event is dispatched to an escrow if and only if it carries, in whichever form, the id mapped to that escrow. */
  lemma DispatchExactly(db: Db, raw: RawEvent, id: Id)
    requires Mapped(db)
    ensures (Dispatch(db, raw).Some? && Dispatch(db, raw).value.escrowId == id)
            <==> ContractIdOf(raw).Some? && id in db.escrows && db.escrows[id].contractId == ContractIdOf(raw)
  {
    if ContractIdOf(raw).Some? && id in db.escrows && db.escrows[id].contractId == ContractIdOf(raw) {
      var i :| 0 <= i < |db.order| && db.order[i] == id;
      FindByContractReaches(db, ContractIdOf(raw).value, 0, i);
    }
  }

  lemma {:induction false} FindByContractStable(a: Db, b: Db, cid: nat, from: nat)
    requires Advances(a, b)
    requires from <= |b.order|
    ensures FindByContract(b, cid, from) == if from <= |a.order| then FindByContract(a, cid, from) else None
    decreases |b.order| - from
  {
    if from < |b.order| {
      FindByContractStable(a, b, cid, from + 1);
      if from < |a.order| {
        var id := a.order[from];
        assert b.order[from] == id;
        if id in a.escrows { assert RowAdvances(a.escrows[id], b.escrows[id]); }
      }
    }
  }

  /** The id mapping, and with it what an event asks for, is fixed over every step of every writer. */
  lemma DispatchStable(a: Db, b: Db, raw: RawEvent)
    requires Advances(a, b)
    ensures Dispatch(b, raw) == Dispatch(a, raw)
  {
    if ContractIdOf(raw).Some? { FindByContractStable(a, b, ContractIdOf(raw).value, 0); }
  }

  // ── One poll cycle ────────────────────────────────────────────────────────

  /** A start ledger is sent inclusively; a paging token (here the index it names) exclusively. */
  datatype Cursor = NoCursor | Ledger(n: nat) | Token(index: nat)

  datatype Poller = Poller(cursor: Cursor, retries: map<string, nat>, db: Db, dead: seq<string>)

  /** A failed id lookup is thrown past the retry counter; a failed sync is counted. Neither writes. */
  datatype Fault = NoFault | LookupFails | SyncFails

  /** Everything a cycle meets that the poller does not decide; `others` acts just before an event is handled. */
  datatype Cycle = Cycle(
    configured: nat,
    startLatest: Option<nat>,
    firstWriteOk: bool,
    fetchOk: bool,
    faults: map<nat, Fault>,
    others: map<nat, seq<Lifecycle.Action>>,
    latest: Option<nat>,
    writeOk: bool,
    now: Time)

  function FaultAt(c: Cycle, i: nat): Fault { if i in c.faults then c.faults[i] else NoFault }

  function OthersAt(c: Cycle, i: nat): seq<Lifecycle.Action> { if i in c.others then c.others[i] else [] }

  /** The tables after what other writers do before event `i` is handled. */
  function Meanwhile(s: Poller, c: Cycle, i: nat): Poller { s.(db := Lifecycle.Run(s.db, OthersAt(c, i))) }

  function Behind(latest: nat): nat {
    if latest > START_LEDGER_MARGIN then latest - START_LEDGER_MARGIN else 1
  }

  function StartLedger(c: Cycle): Option<nat> {
    if c.configured != 0 then Some(c.configured)
    else if c.startLatest.Some? then Some(Behind(c.startLatest.value)) else None
  }

  /** The first event at or after a ledger, `|log|` when there is none. */
  function FirstAt(log: seq<RawEvent>, n: nat, from: nat := 0): (i: nat)
    requires from <= |log|
    ensures from <= i <= |log|
    ensures forall k :: from <= k < i ==> log[k].ledger < n
    ensures i < |log| ==> log[i].ledger >= n
    decreases |log| - from
  {
    if from == |log| || log[from].ledger >= n then from else FirstAt(log, n, from + 1)
  }

  /** Where `getEvents` starts reading. */
  function Position(log: seq<RawEvent>, c: Cursor): (i: nat)
    requires c.Token? ==> c.index < |log|
    ensures i <= |log|
  {
    match c
    case NoCursor => 0
    case Ledger(n) => FirstAt(log, n)
    case Token(i) => i + 1
  }

  function Min(a: nat, b: nat): nat { if a < b then a else b }

  function Retries(s: Poller, id: string): nat { if id in s.retries then s.retries[id] else 0 }

  /** Counts a failed sync: dead-lettered at the limit (handled), otherwise rethrown (not handled). */
  function Fail(s: Poller, raw: RawEvent): (Poller, bool) {
    var attempts := Retries(s, raw.id) + 1;
    if attempts >= MAX_SYNC_RETRIES
    then (s.(retries := s.retries - {raw.id}, dead := s.dead + [raw.id]), true)
    else (s.(retries := s.retries[raw.id := attempts]), false)
  }

  /** `processEvent`: the flag tells whether the batch may go on. */
  function Process(s: Poller, raw: RawEvent, fault: Fault, now: Time): (Poller, bool) {
    if ContractIdOf(raw).None? then (s.(dead := s.dead + [raw.id]), true)
    else if fault.LookupFails? then (s, false)
    else match Dispatch(s.db, raw)
      case None => (s.(dead := s.dead + [raw.id]), true)
      case Some(e) =>
        if fault.SyncFails? then Fail(s, raw)
        else
          var (db, out) := Sync(s.db, e, now);
          if out.Failed? then Fail(s.(db := db), raw)
          else (s.(db := db, retries := s.retries - {raw.id}), true)
  }

  /** Handles `log[i..end]` up to the first event that stops the batch, whose index is returned. */
  function Batch(s: Poller, log: seq<RawEvent>, i: nat, end: nat, c: Cycle): (r: (Poller, nat))
    requires i <= end <= |log|
    ensures i <= r.1 <= end
    ensures r.0.cursor == s.cursor
    decreases end - i
  {
    if i == end then (s, i)
    else
      var (next, ok) := Process(Meanwhile(s, c, i), log[i], FaultAt(c, i), c.now);
      if ok then Batch(next, log, i + 1, end, c) else (next, i)
  }

  /** The part of a cycle after a cursor is at hand. */
  function CycleFrom(s: Poller, cursor: Cursor, log: seq<RawEvent>, c: Cycle): (r: Poller)
    requires cursor.Token? ==> cursor.index < |log|
    requires s.cursor.Token? ==> s.cursor.index < |log|
    ensures r.cursor.Token? ==> r.cursor.index < |log|
  {
    if !c.fetchOk then s
    else
      var start := Position(log, cursor);
      var end := Min(start + PAGE_LIMIT, |log|);
      if start == end then
        if c.latest.Some? && c.latest.value != 0 && c.writeOk
        then s.(cursor := Ledger(Behind(c.latest.value))) else s
      else
        var (next, stop) := Batch(s, log, start, end, c);
        if stop > start && c.writeOk then next.(cursor := Token(stop - 1)) else next
  }

  function PollCycle(s: Poller, log: seq<RawEvent>, c: Cycle): (r: Poller)
    requires s.cursor.Token? ==> s.cursor.index < |log|
    ensures r.cursor.Token? ==> r.cursor.index < |log|
  {
    if !s.cursor.NoCursor? then CycleFrom(s, s.cursor, log, c)
    else match StartLedger(c)
      case None => s
      case Some(n) =>
        CycleFrom(if c.firstWriteOk then s.(cursor := Ledger(n)) else s, Ledger(n), log, c)
  }

  // ── The poller as it runs ─────────────────────────────────────────────────

  class SorobanPollerService {
    var polling: bool
    var state: Poller

    constructor (state: Poller)
      ensures this.state == state && !polling
    {
      this.state := state;
      polling := false;
    }

    /** One tick; a tick that finds the previous one still running does nothing. */
    method Poll(log: seq<RawEvent>, c: Cycle)
      requires state.cursor.Token? ==> state.cursor.index < |log|
      modifies this
      ensures polling == old(polling)
      ensures state == if old(polling) then old(state) else PollCycle(old(state), log, c)
    {
      if polling { return; }
      polling := true;
      PollInternal(log, c);
      polling := false;
    }

    method PollInternal(log: seq<RawEvent>, c: Cycle)
      requires state.cursor.Token? ==> state.cursor.index < |log|
      modifies this`state
      ensures state == PollCycle(old(state), log, c)
    {
      hide Process, Batch;
      var cursor := state.cursor;
      if cursor.NoCursor? {
        var start := StartLedger(c);
        if start.None? { return; }
        cursor := Ledger(start.value);
        if c.firstWriteOk { state := state.(cursor := cursor); }
      }
      if !c.fetchOk { return; }
      var first := Position(log, cursor);
      var end := Min(first + PAGE_LIMIT, |log|);
      if first == end {
        if c.latest.Some? && c.latest.value != 0 && c.writeOk {
          state := state.(cursor := Ledger(Behind(c.latest.value)));
        }
        return;
      }
      var stop := ApplyBatch(log, first, end, c);
      if stop > first && c.writeOk {
        state := state.(cursor := Token(stop - 1));
      }
    }

    /** The batch loop: events in order until one throws. */
    method ApplyBatch(log: seq<RawEvent>, first: nat, end: nat, c: Cycle) returns (stop: nat)
      requires first <= end <= |log|
      modifies this`state
      ensures (state, stop) == Batch(old(state), log, first, end, c)
    {
      stop := first;
      while stop < end
        invariant first <= stop <= end
        invariant Batch(state, log, stop, end, c) == Batch(old(state), log, first, end, c)
      {
        state := Meanwhile(state, c, stop);
        var (next, handled) := Process(state, log[stop], FaultAt(c, stop), c.now);
        state := next;
        if !handled { return; }
        stop := stop + 1;
      }
    }
  }
}
