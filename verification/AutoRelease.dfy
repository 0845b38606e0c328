/**
 * The auto-release worker: pick from a snapshot, check for a dispute, claim, submit to the
 * chain, record or clear; one call per step, any number of overlapping runs, every other
 * writer of the tables in between.
 */
module AutoRelease {
  import opened EscrowTables
  import S = ChainSync
  import L = Lifecycle

  type TaskId = nat

  const AUTO_RELEASE_WINDOW_MS: int := 48 * 3600 * 1000

  /** Where the handling of one escrow of one snapshot stands. */
  datatype Phase =
    | Idle
    | Picked(id: Id, deliveredAt: Time, contractId: Option<nat>)
    | Undisputed(id: Id, deliveredAt: Time)
    | Holding(id: Id, deliveredAt: Time)
    | Submitted(id: Id, txHash: string)
    | Clearing(id: Id)

  /** A contract call made for an escrow. */
  datatype Call = Call(id: Id, at: Time, deliveredAt: Time)

  /** `accepted` and `unrecorded` count calls the chain took, and of those the ones never recorded. */
  datatype World = World(
    now: Time, db: Db, tasks: map<TaskId, Phase>,
    calls: seq<Call>, recorded: set<Id>, accepted: map<Id, nat>, unrecorded: map<Id, nat>)

  datatype Step =
    | Tick(to: Time)
    | Other(action: L.Action)
    | Pick(task: TaskId, id: Id)
    | CheckDispute(task: TaskId)
    | Claim(task: TaskId, rereadOk: bool)
    | Submit(task: TaskId, answer: Option<string>, landed: bool)   // a call that throws may have landed before
    | Record(task: TaskId, ok: bool)
    | Clear(task: TaskId, ok: bool)
    | Die(task: TaskId)

  /** `findAutoReleaseEligible` for one row. */
  predicate Eligible(r: Escrow, now: Time) {
    && r.state.Delivered?
    && r.deliveredAt.Some? && r.deliveredAt.value <= now - AUTO_RELEASE_WINDOW_MS
    && r.autoReleaseTxHash.None?
    && r.autoReleaseSubmittedAt.None?
  }

  function PhaseOf(w: World, t: TaskId): Phase { if t in w.tasks then w.tasks[t] else Idle }

  function Count(m: map<Id, nat>, id: Id): nat { if id in m then m[id] else 0 }

  predicate Claimed(db: Db, id: Id) { id in db.escrows && db.escrows[id].autoReleaseSubmittedAt.Some? }

  /** What the worker of a step does next, and the database write it makes on the way. */
  function Move(w: World, s: Step): (Phase, Option<L.Action>)
    requires !s.Tick? && !s.Other?
  {
    var p := PhaseOf(w, s.task);
    match s
    case Pick(_, id) =>
      if p.Idle? && id in w.db.escrows && Eligible(w.db.escrows[id], w.now)
      then (Picked(id, w.db.escrows[id].deliveredAt.value, w.db.escrows[id].contractId), None) else (p, None)
    case CheckDispute(_) =>
      if !p.Picked? then (p, None)
      else if HasDispute(w.db, p.id) || p.contractId.None? then (Idle, None)
      else (Undisputed(p.id, p.deliveredAt), None)
    case Claim(_, rereadOk) =>
      if !p.Undisputed? then (p, None)
      else if p.id !in w.db.escrows || Claimed(w.db, p.id) then (Idle, None)
      else (if rereadOk then Holding(p.id, p.deliveredAt) else Idle, Some(L.ClaimRelease(p.id, w.now)))
    case Submit(_, answer, _) =>
      if !p.Holding? then (p, None)
      else (if answer.Some? then Submitted(p.id, answer.value) else Clearing(p.id), None)
    case Record(_, ok) =>
      if !p.Submitted? then (p, None)
      else if ok then (Idle, Some(L.RecordRelease(p.id, p.txHash, w.now)))
      else (Clearing(p.id), None)
    case Clear(_, ok) =>
      if !p.Clearing? then (p, None)
      else (Idle, if ok then Some(L.ClearRelease(p.id)) else None)
    case Die(_) => (Idle, None)
  }

  /** The call, acceptance, record or loss a step adds to the history. */
  predicate Calls(w: World, s: Step, id: Id) { s.Submit? && PhaseOf(w, s.task).Holding? && PhaseOf(w, s.task).id == id }

  predicate Accepts(w: World, s: Step, id: Id) { Calls(w, s, id) && s.answer.Some? }

  /** A call the chain accepts although it throws. */
  predicate Strays(w: World, s: Step, id: Id) { Calls(w, s, id) && s.answer.None? && s.landed }

  predicate Records(w: World, s: Step, id: Id) {
    s.Record? && s.ok && PhaseOf(w, s.task).Submitted? && PhaseOf(w, s.task).id == id
  }

  predicate Loses(w: World, s: Step, id: Id) {
    ((s.Record? && !s.ok) || s.Die?) && PhaseOf(w, s.task).Submitted? && PhaseOf(w, s.task).id == id
  }

  function Bump(m: map<Id, nat>, id: Id): map<Id, nat> { m[id := Count(m, id) + 1] }

  /** A step of a worker: its task's phase, its write, and the history. */
  function WorkerStep(w: World, s: Step): World
    requires !s.Tick? && !s.Other?
  {
    var (phase, write) := Move(w, s);
    var p := PhaseOf(w, s.task);
    var id := if p.Idle? then 0 else p.id;
    w.(tasks := w.tasks[s.task := phase],
       db := if write.Some? then L.Step(w.db, write.value).0 else w.db,
       calls := if Calls(w, s, id) then w.calls + [Call(id, w.now, p.deliveredAt)] else w.calls,
       recorded := if Records(w, s, id) then w.recorded + {id} else w.recorded,
       accepted := if Accepts(w, s, id) || Strays(w, s, id) then Bump(w.accepted, id) else w.accepted,
       unrecorded := if Loses(w, s, id) || Strays(w, s, id) then Bump(w.unrecorded, id) else w.unrecorded)
  }

  /** The three writes that are the worker's own. */
  predicate WorkerWrite(a: L.Action) { a.ClaimRelease? || a.RecordRelease? || a.ClearRelease? }

  function Next(w: World, s: Step): World {
    if s.Tick? then (if w.now <= s.to then w.(now := s.to) else w)
    else if s.Other? then (if WorkerWrite(s.action) then w else w.(db := L.Step(w.db, s.action).0))
    else WorkerStep(w, s)
  }

  // ── What the writes do to the claim column ────────────────────────────────

  lemma SyncKeepsClaim(db: Db, e: S.ChainEvent, now: Time, id: Id)
    ensures Claimed(S.Sync(db, e, now).0, id) <==> Claimed(db, id)
  {
    S.SyncUnfold(db, e, now);
    if S.PlanOf(db, e, now).Do? { S.PlanShape(db, e, now); }
  }

  lemma RowStepKeepsClaim(db: Db, a: L.Action, id: Id)
    requires !WorkerWrite(a) && !a.Chain? && !a.Create? && !a.Pay?
    ensures Claimed(L.RowStep(db, a).0, id) <==> Claimed(db, id)
  {}

  /** No other writer touches the claim. */
  lemma OthersKeepClaims(db: Db, a: L.Action, id: Id)
    requires !WorkerWrite(a)
    ensures id in db.escrows ==> id in L.Step(db, a).0.escrows
    ensures Claimed(L.Step(db, a).0, id) <==> Claimed(db, id)
  {
    L.StepAdvances(db, a);
    match a {
      case Chain(e, now) => SyncKeepsClaim(db, e, now, id);
      case Create(_, _, _, _, _, _) =>
      case Pay(p) => L.FundAllAdvances(db, L.Funded(db, p));
      case _ =>
        RowStepKeepsClaim(db, a, id);
    }
  }

  /** The worker's writes change the claim of their own escrow and no state. */
  lemma WorkerWrites(db: Db, a: L.Action, id: Id)
    requires WorkerWrite(a) && a.id in db.escrows
    ensures var next := L.Step(db, a).0;
            && next.escrows.Keys == db.escrows.Keys
            && (id in db.escrows ==> next.escrows[id].state == db.escrows[id].state)
            && (Claimed(next, id) <==> if id == a.id then !a.ClearRelease? else Claimed(db, id))
  {}

  // ── The invariant ─────────────────────────────────────────────────────────

  predicate Holds(p: Phase, id: Id) {
    (p.Holding? || p.Submitted? || p.Clearing?) && p.id == id
  }

  ghost predicate Exclusive(w: World) {
    forall t, u, id :: t in w.tasks && u in w.tasks && Holds(w.tasks[t], id) && Holds(w.tasks[u], id) ==> t == u
  }

  /** A holder's escrow is claimed and not yet recorded; a snapshot's window has passed. */
  ghost predicate PhaseFits(w: World, p: Phase) {
    && (!p.Idle? && Holds(p, p.id) ==> Claimed(w.db, p.id) && p.id !in w.recorded)
    && (p.Picked? || p.Undisputed? || p.Holding? ==> p.deliveredAt + AUTO_RELEASE_WINDOW_MS <= w.now)
  }

  predicate Flies(p: Phase, id: Id) { p.Submitted? && p.id == id }

  ghost predicate InFlight(w: World, id: Id) { exists t: TaskId :: Flies(PhaseOf(w, t), id) }

  ghost predicate Balanced(w: World, id: Id) {
    Count(w.accepted, id) ==
      Count(w.unrecorded, id) + (if id in w.recorded then 1 else 0) + (if InFlight(w, id) then 1 else 0)
  }

  ghost predicate Inv(w: World) {
    && Exclusive(w)
    && (forall t :: t in w.tasks ==> PhaseFits(w, w.tasks[t]))
    && (forall id :: id in w.recorded ==> Claimed(w.db, id))
    && (forall i :: 0 <= i < |w.calls| ==> w.calls[i].deliveredAt + AUTO_RELEASE_WINDOW_MS <= w.calls[i].at)
    && (forall id :: Balanced(w, id))
  }

  predicate OwnStep(s: Step, t: TaskId) { !s.Tick? && !s.Other? && s.task == t }

  /** The claim column after a step: set by a won claim, cleared by the holder's clear, else kept. */
  lemma StepClaims(w: World, s: Step, id: Id)
    requires Inv(w)
    ensures id in w.db.escrows ==> id in Next(w, s).db.escrows
    ensures Claimed(Next(w, s).db, id) <==>
              if s.Claim? && PhaseOf(w, s.task).Undisputed? && PhaseOf(w, s.task).id == id && id in w.db.escrows
              then true
              else if s.Clear? && s.ok && PhaseOf(w, s.task).Clearing? && PhaseOf(w, s.task).id == id then false
              else Claimed(w.db, id)
  {
    hide L.Step;
    if s.Other? {
      if !WorkerWrite(s.action) { OthersKeepClaims(w.db, s.action, id); }
    } else if !s.Tick? {
      if s.task in w.tasks { assert PhaseFits(w, w.tasks[s.task]); }
      var write := Move(w, s).1;
      if write.Some? { WorkerWrites(w.db, write.value, id); }
    }
  }

  lemma StepKeepsExclusive(w: World, s: Step)
    requires Inv(w)
    ensures Exclusive(Next(w, s))
  {
    hide L.Step;
    var n := Next(w, s);
    if s.Claim? && PhaseOf(w, s.task).Undisputed? && PhaseOf(n, s.task).Holding? {
      var id := PhaseOf(w, s.task).id;
      forall u | u in w.tasks ensures !Holds(w.tasks[u], id) { assert PhaseFits(w, w.tasks[u]); }
    }
  }

  lemma StepKeepsFits(w: World, s: Step, t: TaskId)
    requires Inv(w) && t in Next(w, s).tasks
    ensures PhaseFits(Next(w, s), Next(w, s).tasks[t])
  {
    hide L.Step;
    var n := Next(w, s);
    if OwnStep(s, t) {
      if t in w.tasks { assert PhaseFits(w, w.tasks[t]); }
      var p := n.tasks[t];
      if !p.Idle? { StepClaims(w, s, p.id); }
    } else {
      assert t in w.tasks && n.tasks[t] == w.tasks[t];
      assert PhaseFits(w, w.tasks[t]);
      var p := w.tasks[t];
      if !p.Idle? && Holds(p, p.id) {
        StepClaims(w, s, p.id);
        if !s.Tick? && !s.Other? && s.task in w.tasks { assert !Holds(w.tasks[s.task], p.id); }
      }
    }
  }

  lemma OwnFlight(w: World, s: Step, t: TaskId, id: Id)
    ensures Flies(PhaseOf(Next(w, s), t), id) <==>
              if OwnStep(s, t)
              then Accepts(w, s, id) || (Flies(PhaseOf(w, t), id) && !Records(w, s, id) && !Loses(w, s, id))
              else Flies(PhaseOf(w, t), id)
  {
    hide L.Step;
  }

  lemma StepHistory(w: World, s: Step, id: Id)
    ensures var n := Next(w, s);
            && Count(n.accepted, id)
               == Count(w.accepted, id) + (if Accepts(w, s, id) || Strays(w, s, id) then 1 else 0)
            && Count(n.unrecorded, id)
               == Count(w.unrecorded, id) + (if Loses(w, s, id) || Strays(w, s, id) then 1 else 0)
            && (id in n.recorded <==> id in w.recorded || Records(w, s, id))
  {
    hide L.Step;
  }

  lemma StepKeepsBalance(w: World, s: Step, id: Id)
    requires Inv(w)
    ensures Balanced(Next(w, s), id)
  {
    hide L.Step;
    var n := Next(w, s);
    assert Balanced(w, id);
    forall t: TaskId ensures Flies(PhaseOf(n, t), id) <==>
              if OwnStep(s, t)
              then Accepts(w, s, id) || (Flies(PhaseOf(w, t), id) && !Records(w, s, id) && !Loses(w, s, id))
              else Flies(PhaseOf(w, t), id) { OwnFlight(w, s, t, id); }
    StepHistory(w, s, id);
    hide Next;
    var ends := Accepts(w, s, id) || Records(w, s, id) || Loses(w, s, id);
    forall t: TaskId | Flies(PhaseOf(w, t), id) && ends ensures t == s.task {
      assert Holds(w.tasks[t], id) && Holds(w.tasks[s.task], id);
    }
    if Accepts(w, s, id) {
      assert Flies(PhaseOf(n, s.task), id);
    } else if Records(w, s, id) || Loses(w, s, id) {
      assert Flies(PhaseOf(w, s.task), id);
      assert PhaseFits(w, w.tasks[s.task]);
    } else if InFlight(w, id) {
      var t: TaskId :| Flies(PhaseOf(w, t), id);
      assert Flies(PhaseOf(n, t), id);
    }
  }

  lemma StepKeepsInv(w: World, s: Step)
    requires Inv(w)
    ensures Inv(Next(w, s))
  {
    hide L.Step;
    var n := Next(w, s);
    StepKeepsExclusive(w, s);
    forall t | t in n.tasks ensures PhaseFits(n, n.tasks[t]) { StepKeepsFits(w, s, t); }
    forall id ensures Balanced(n, id) { StepKeepsBalance(w, s, id); }
    forall id | id in n.recorded ensures Claimed(n.db, id) {
      StepClaims(w, s, id);
      StepHistory(w, s, id);
      if !s.Tick? && !s.Other? && s.task in w.tasks { assert PhaseFits(w, w.tasks[s.task]); }
    }
    if !s.Tick? && !s.Other? && s.task in w.tasks { assert PhaseFits(w, w.tasks[s.task]); }
  }

  // ── Runs ──────────────────────────────────────────────────────────────────

  function Run(w: World, steps: seq<Step>): World
    decreases |steps|
  {
    if steps == [] then w else Run(Next(w, steps[0]), steps[1..])
  }

  function CallsFor(calls: seq<Call>, id: Id): nat {
    if calls == [] then 0 else CallsFor(calls[..|calls| - 1], id) + (if calls[|calls| - 1].id == id then 1 else 0)
  }

  /** Once a submission is recorded, the step after it and every later one leave the escrow alone. */
  lemma RecordedStepMakesNoCall(w: World, s: Step, id: Id)
    requires Inv(w) && id in w.recorded
    ensures id in Next(w, s).recorded
    ensures CallsFor(Next(w, s).calls, id) == CallsFor(w.calls, id)
  {
    hide L.Step;
    var n := Next(w, s);
    if n.calls != w.calls {
      assert PhaseFits(w, w.tasks[s.task]);
      assert n.calls[..|n.calls| - 1] == w.calls;
    }
  }

  lemma AcceptedBound(w: World, id: Id)
    requires Inv(w)
    ensures Count(w.accepted, id) <= 1 + Count(w.unrecorded, id)
  {
    assert Balanced(w, id);
    if InFlight(w, id) {
      var t: TaskId :| Flies(PhaseOf(w, t), id);
      assert PhaseFits(w, w.tasks[t]);
    }
  }

  /**
   * In every interleaving of any number of workers with stale snapshots and every other
   * writer: at most one worker holds an escrow; every contract call comes at least 48 hours
   * after the delivery its snapshot saw; the chain accepts a second call for an escrow only
   * if an accepted one was never recorded; and after a record no call is made again.
   */
  lemma {:induction false} ReleaseExclusion(w: World, steps: seq<Step>, id: Id)
    requires Inv(w)
    ensures var r := Run(w, steps);
            && Inv(r) && Exclusive(r)
            && (forall i :: 0 <= i < |r.calls| ==> r.calls[i].at - r.calls[i].deliveredAt >= 172800000)
            && Count(r.accepted, id) <= 1 + Count(r.unrecorded, id)
            && (id in w.recorded ==> id in r.recorded && CallsFor(r.calls, id) == CallsFor(w.calls, id))
    decreases |steps|
  {
    if steps == [] {
      AcceptedBound(w, id);
    } else {
      StepKeepsInv(w, steps[0]);
      if id in w.recorded { RecordedStepMakesNoCall(w, steps[0], id); }
      hide Next, Inv;
      ReleaseExclusion(Next(w, steps[0]), steps[1..], id);
    }
  }

  // ── A claim whose worker is gone ──────────────────────────────────────────

  /** The claim column is set and nobody is working on the escrow. */
  ghost predicate Stranded(w: World, id: Id) {
    Claimed(w.db, id) && forall t :: t in w.tasks ==> !Holds(w.tasks[t], id)
  }

  lemma StrandedStays(w: World, s: Step, id: Id)
    requires Inv(w) && Stranded(w, id)
    ensures Stranded(Next(w, s), id) && CallsFor(Next(w, s).calls, id) == CallsFor(w.calls, id)
  {
    hide L.Step;
    StepClaims(w, s, id);
    var n := Next(w, s);
    if n.calls != w.calls {
      assert !Holds(w.tasks[s.task], id);
      assert n.calls[..|n.calls| - 1] == w.calls;
    }
  }

  lemma {:induction false} StrandedForever(w: World, steps: seq<Step>, id: Id)
    requires Inv(w) && Stranded(w, id)
    ensures Stranded(Run(w, steps), id) && CallsFor(Run(w, steps).calls, id) == CallsFor(w.calls, id)
    decreases |steps|
  {
    hide Next, Inv, Stranded, CallsFor;
    if steps != [] {
      StepKeepsInv(w, steps[0]);
      StrandedStays(w, steps[0], id);
      StrandedForever(Next(w, steps[0]), steps[1..], id);
    }
  }

  /**
   * A claim has no time limit. A worker that dies while it holds one, or whose read after the claim
   * fails, leaves the column set: no run of any workers ever calls the contract for that escrow again.
   */
  lemma LostClaimIsForever(w: World, last: Step, steps: seq<Step>, id: Id)
    requires Inv(w) && (last.Die? || (last.Claim? && !last.rereadOk)) && last.task in w.tasks
    requires last.Die? ==> Holds(w.tasks[last.task], id)
    requires last.Claim? ==> w.tasks[last.task].Undisputed? && w.tasks[last.task].id == id
                             && id in w.db.escrows && !Claimed(w.db, id)
    ensures var r := Run(Next(w, last), steps);
            Claimed(r.db, id) && CallsFor(r.calls, id) == CallsFor(w.calls, id)
  {
    var n := Next(w, last);
    StepKeepsInv(w, last);
    StepClaims(w, last, id);
    hide L.Step;
    forall t | t in w.tasks ensures t != last.task ==> !Holds(w.tasks[t], id) { assert PhaseFits(w, w.tasks[t]); }
    assert PhaseFits(w, w.tasks[last.task]);
    assert Stranded(n, id);
    StrandedForever(n, steps, id);
  }

  /** No step of a worker changes the state of any escrow: that is left to the chain event. */
  lemma WorkersKeepStates(w: World, s: Step, id: Id)
    requires Inv(w) && !s.Other? && id in w.db.escrows
    ensures id in Next(w, s).db.escrows && Next(w, s).db.escrows[id].state == w.db.escrows[id].state
  {
    hide L.Step;
    if !s.Tick? {
      if s.task in w.tasks { assert PhaseFits(w, w.tasks[s.task]); }
      var write := Move(w, s).1;
      if write.Some? { WorkerWrites(w.db, write.value, id); }
    }
  }

  /**
   * The claim is decided by the claim column alone: a worker that passed its snapshot checks
   * calls the contract exactly when the column is empty, whatever state the escrow is in by then.
   */
  lemma ClaimDecidesExactly(w: World, t: TaskId, answer: Option<string>, landed: bool)
    requires PhaseOf(w, t).Undisputed? && PhaseOf(w, t).id in w.db.escrows
    ensures var p := PhaseOf(w, t);
            Next(Next(w, Claim(t, true)), Submit(t, answer, landed)).calls ==
            w.calls + (if Claimed(w.db, p.id) then [] else [Call(p.id, w.now, p.deliveredAt)])
  {
    hide L.Step;
    var b := Next(w, Claim(t, true));
    assert b.calls == w.calls && b.now == w.now;
    assert w.calls + [] == w.calls;
  }

  /** A delivered escrow that some worker has found undisputed. */
  function LateWorld(): World {
    var row := Escrow(Some(7), "B", "V", "item", 1, "XLM", Delivered,
                      Some("t"), None, Some(0), Some(0), None, None, None);
    World(AUTO_RELEASE_WINDOW_MS, Db(map[0 := row], [0], []), map[0 := Undisputed(0, 0)], [], {}, map[], map[])
  }

  /** So a hash stored by the chain event, which leaves the column empty, does not stop that worker. */
  lemma ChainHashDoesNotStopAWorker()
    ensures var e := S.ChainEvent(S.AutoReleased, 0, None, Some("h"), None, None);
            var released := Next(LateWorld(), Other(L.Chain(e, 0)));
            && Inv(LateWorld())
            && 0 in released.db.escrows
            && released.db.escrows[0].state.Released?
            && released.db.escrows[0].autoReleaseTxHash == Some("h")
            && Next(Next(released, Claim(0, true)), Submit(0, None, false)).calls
               == [Call(0, AUTO_RELEASE_WINDOW_MS, 0)]
  {
    var w, e := LateWorld(), S.ChainEvent(S.AutoReleased, 0, None, Some("h"), None, None);
    var row := w.db.escrows[0].(state := Released, autoReleaseTxHash := Some("h"));
    assert S.Sync(w.db, e, 0).0 == PutRow(w.db, 0, row) by { S.SyncUnfold(w.db, e, 0); }
    L.ChainStepIsSync(w.db, e, 0);
    hide L.Step, S.Sync;
    var released := Next(w, Other(L.Chain(e, 0)));
    assert released.tasks == w.tasks && released.calls == [] && released.now == w.now;
    assert 0 in released.db.escrows && released.db.escrows[0].autoReleaseSubmittedAt.None?;
    ClaimDecidesExactly(released, 0, None, false);
    hide Next;
  }
}
