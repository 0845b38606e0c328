/**
 * Replaying dead-lettered transactions: a compare-and-set claim that goes stale with time,
 * one database call per step, any number of operators.
 */
module DeadLetterQueue {
  import opened EscrowTables

  type TaskId = nat

  const REPLAYING_STALE_THRESHOLD_MS: int := 5 * 60 * 1000

  datatype Status = PendingReview | Replaying | Replayed | Abandoned

  datatype Row = Row(status: Status, updatedAt: Time, attempts: nat, txHash: Option<string>, reviewedAt: Option<Time>)

  type Table = map<Id, Row>

  // ── FailedTransactionRepository ───────────────────────────────────────────

  /** The `where` clause shared by the claim and by abandoning. */
  predicate Claimable(rows: Table, id: Id, staleBefore: Time) {
    id in rows && (rows[id].status.PendingReview? || (rows[id].status.Replaying? && rows[id].updatedAt <= staleBefore))
  }

  /** Every update stamps `updatedAt`. */
  function Write(rows: Table, id: Id, row: Row, now: Time): Table { rows[id := row.(updatedAt := now)] }

  function NewRow(now: Time, attempts: nat): Row { Row(PendingReview, now, attempts, None, None) }

  // ── The protocol ──────────────────────────────────────────────────────────

  /** Where one call of `replay` or `abandon` stands. */
  datatype Phase =
    | Idle
    | Checked(id: Id, staleBefore: Time)
    | Holding(id: Id, since: Time)
    | Submitted(id: Id, since: Time, txHash: string)
    | Releasing(id: Id, since: Time)
    | Bumping(id: Id)
    | Abandoning(id: Id, staleBefore: Time)

  /** Counts of marked replays, of submissions the chain accepted, and of those that were never marked. */
  datatype Queue = Queue(
    now: Time, rows: Table, tasks: map<TaskId, Phase>,
    replayed: map<Id, nat>, submitted: map<Id, nat>, lost: map<Id, nat>)

  datatype Step =
    | Tick(to: Time)
    | Enqueue(id: Id, attempts: nat)
    | ReadForReplay(task: TaskId, id: Id)
    | Claim(task: TaskId)
    | SubmitOk(task: TaskId, txHash: string)
    | SubmitFails(task: TaskId, landed: bool)   // the call throws; the chain may have accepted it before
    | MarkReplayed(task: TaskId)
    | ReleaseClaim(task: TaskId)
    | IncrementAttempts(task: TaskId)
    | ReadForAbandon(task: TaskId, id: Id)
    | MarkAbandoned(task: TaskId)
    | MarkReviewed(id: Id)
    | Die(task: TaskId)

  function PhaseOf(q: Queue, t: TaskId): Phase { if t in q.tasks then q.tasks[t] else Idle }

  function Count(m: map<Id, nat>, id: Id): nat { if id in m then m[id] else 0 }

  function To(q: Queue, t: TaskId, p: Phase): Queue { q.(tasks := q.tasks[t := p]) }

  function Next(q: Queue, s: Step): Queue {
    match s
    case Tick(to) => if q.now <= to then q.(now := to) else q
    case Enqueue(id, attempts) => if id in q.rows then q else q.(rows := q.rows[id := NewRow(q.now, attempts)])
    case ReadForReplay(t, id) =>
      var staleBefore := q.now - REPLAYING_STALE_THRESHOLD_MS;
      if PhaseOf(q, t).Idle? && Claimable(q.rows, id, staleBefore) then To(q, t, Checked(id, staleBefore)) else q
    case Claim(t) =>
      var p := PhaseOf(q, t);
      if !p.Checked? then q
      else if Claimable(q.rows, p.id, p.staleBefore)
      then To(q, t, Holding(p.id, q.now))
           .(rows := Write(q.rows, p.id, q.rows[p.id].(status := Replaying), q.now))
      else To(q, t, Idle)
    case SubmitOk(t, hash) =>
      var p := PhaseOf(q, t);
      if p.Holding? then To(q, t, Submitted(p.id, p.since, hash))
                         .(submitted := q.submitted[p.id := Count(q.submitted, p.id) + 1])
      else q
    case SubmitFails(t, landed) =>
      var p := PhaseOf(q, t);
      if !p.Holding? then q
      else if !landed then To(q, t, Releasing(p.id, p.since))
      else To(q, t, Releasing(p.id, p.since))
           .(submitted := q.submitted[p.id := Count(q.submitted, p.id) + 1],
             lost := q.lost[p.id := Count(q.lost, p.id) + 1])
    case MarkReplayed(t) =>
      var p := PhaseOf(q, t);
      if p.Submitted? && p.id in q.rows
      then To(q, t, Idle)
           .(rows := Write(q.rows, p.id, q.rows[p.id].(status := Replayed, txHash := Some(p.txHash)), q.now),
             replayed := q.replayed[p.id := Count(q.replayed, p.id) + 1])
      else q
    case ReleaseClaim(t) =>
      var p := PhaseOf(q, t);
      if p.Releasing? && p.id in q.rows
      then To(q, t, Bumping(p.id)).(rows := Write(q.rows, p.id, q.rows[p.id].(status := PendingReview), q.now))
      else q
    case IncrementAttempts(t) =>
      var p := PhaseOf(q, t);
      if p.Bumping? && p.id in q.rows
      then To(q, t, Idle).(rows := Write(q.rows, p.id, q.rows[p.id].(attempts := q.rows[p.id].attempts + 1), q.now))
      else q
    case ReadForAbandon(t, id) =>
      var staleBefore := q.now - REPLAYING_STALE_THRESHOLD_MS;
      if PhaseOf(q, t).Idle? && Claimable(q.rows, id, staleBefore) then To(q, t, Abandoning(id, staleBefore)) else q
    case MarkAbandoned(t) =>
      var p := PhaseOf(q, t);
      if !p.Abandoning? then q
      else if Claimable(q.rows, p.id, p.staleBefore)
      then To(q, t, Idle)
           .(rows := Write(q.rows, p.id, q.rows[p.id].(status := Abandoned, reviewedAt := Some(q.now)), q.now))
      else To(q, t, Idle)
    case MarkReviewed(id) =>
      if id in q.rows then q.(rows := Write(q.rows, id, q.rows[id].(reviewedAt := Some(q.now)), q.now)) else q
    case Die(t) =>
      var p := PhaseOf(q, t);
      if p.Submitted? then To(q, t, Idle).(lost := q.lost[p.id := Count(q.lost, p.id) + 1])
      else To(q, t, Idle)
  }

  /** A claim is held from the compare-and-set to the write that ends it. */
  predicate Holds(p: Phase, id: Id) {
    (p.Holding? || p.Submitted? || p.Releasing?) && p.id == id
  }

  /** Every claim is still younger than the staleness threshold. */
  ghost predicate Timely(q: Queue) {
    forall t :: t in q.tasks && (q.tasks[t].Holding? || q.tasks[t].Submitted? || q.tasks[t].Releasing?) ==>
      q.now < q.tasks[t].since + REPLAYING_STALE_THRESHOLD_MS
  }

  ghost predicate Exclusive(q: Queue) {
    forall t, u, id :: t in q.tasks && u in q.tasks && Holds(q.tasks[t], id) && Holds(q.tasks[u], id) ==> t == u
  }

  ghost predicate PhaseFits(q: Queue, p: Phase) {
    match p
    case Idle => true
    case Checked(_, before) => before <= q.now - REPLAYING_STALE_THRESHOLD_MS
    case Abandoning(_, before) => before <= q.now - REPLAYING_STALE_THRESHOLD_MS
    case Bumping(_) => true
    case _ => p.id in q.rows && q.rows[p.id].status.Replaying? && p.since <= q.rows[p.id].updatedAt && p.since <= q.now
  }

  predicate Flies(p: Phase, id: Id) { p.Submitted? && p.id == id }

  ghost predicate InFlight(q: Queue, id: Id) { exists t: TaskId :: Flies(PhaseOf(q, t), id) }

  /** A record was marked replayed as often as its status says: once or never. */
  ghost predicate Ledger(q: Queue) {
    forall id ::
      && Count(q.replayed, id) == (if id in q.rows && q.rows[id].status.Replayed? then 1 else 0)
      && Count(q.submitted, id) == Count(q.replayed, id) + Count(q.lost, id) + (if InFlight(q, id) then 1 else 0)
  }

  ghost predicate Inv(q: Queue) {
    && Exclusive(q)
    && (forall t :: t in q.tasks ==> PhaseFits(q, q.tasks[t]))
    && Ledger(q)
  }

  /** Nobody holds a record that is not being replayed, and a fresh claim cannot be taken over. */
  lemma HeldIsNotClaimable(q: Queue, t: TaskId, id: Id, staleBefore: Time)
    requires Inv(q) && Timely(q) && t in q.tasks && Holds(q.tasks[t], id)
    requires staleBefore <= q.now - REPLAYING_STALE_THRESHOLD_MS
    ensures !Claimable(q.rows, id, staleBefore)
  {
    assert PhaseFits(q, q.tasks[t]);
  }

  /** The record a successful claim or abandonment is about, and that nobody holds it. */
  lemma ClaimIsFree(q: Queue, t: TaskId)
    requires Inv(q) && Timely(q)
    requires PhaseOf(q, t).Checked? || PhaseOf(q, t).Abandoning?
    requires Claimable(q.rows, PhaseOf(q, t).id, PhaseOf(q, t).staleBefore)
    ensures forall u :: u in q.tasks ==> !Holds(q.tasks[u], PhaseOf(q, t).id)
  {
    assert PhaseFits(q, q.tasks[t]);
    forall u | u in q.tasks && Holds(q.tasks[u], PhaseOf(q, t).id) ensures false {
      HeldIsNotClaimable(q, u, PhaseOf(q, t).id, PhaseOf(q, t).staleBefore);
    }
  }

  lemma StepKeepsExclusive(q: Queue, s: Step)
    requires Inv(q) && Timely(q)
    ensures Exclusive(Next(q, s))
  {
    if s.Claim? && PhaseOf(q, s.task).Checked?
       && Claimable(q.rows, PhaseOf(q, s.task).id, PhaseOf(q, s.task).staleBefore) {
      ClaimIsFree(q, s.task);
    }
  }

  predicate OwnStep(s: Step, t: TaskId) {
    match s
    case Tick(_) => false
    case Enqueue(_, _) => false
    case MarkReviewed(_) => false
    case _ => s.task == t
  }

  /** Another task's step cannot touch a held record except to stamp it. */
  lemma HeldRowStays(q: Queue, s: Step, t: TaskId, id: Id)
    requires Inv(q) && Timely(q)
    requires t in q.tasks && Holds(q.tasks[t], id)
    requires !OwnStep(s, t)
    ensures var n := Next(q, s);
            id in n.rows && n.rows[id].status.Replaying? && n.rows[id].updatedAt >= q.tasks[t].since
  {
    hide Ledger;
    assert PhaseFits(q, q.tasks[t]);
    if s.Claim? || s.MarkAbandoned? {
      var p := PhaseOf(q, s.task);
      if (p.Checked? || p.Abandoning?) && Claimable(q.rows, p.id, p.staleBefore) { ClaimIsFree(q, s.task); }
    } else if s.MarkReplayed? || s.ReleaseClaim? {
      if PhaseOf(q, s.task).Submitted? || PhaseOf(q, s.task).Releasing? {
        assert Holds(PhaseOf(q, s.task), PhaseOf(q, s.task).id);
      }
    }
  }

  lemma OthersKeepPhase(q: Queue, s: Step, t: TaskId)
    requires !OwnStep(s, t)
    ensures PhaseOf(Next(q, s), t) == PhaseOf(q, t)
    ensures t in Next(q, s).tasks <==> t in q.tasks
    ensures Next(q, s).now >= q.now
  {}

  /** What a task's own step leaves it in. */
  lemma OwnStepFits(q: Queue, s: Step)
    requires !s.Tick? && !s.Enqueue? && !s.MarkReviewed?
    requires PhaseFits(q, PhaseOf(q, s.task))
    ensures PhaseFits(Next(q, s), PhaseOf(Next(q, s), s.task))
  {}

  lemma StepKeepsFits(q: Queue, s: Step, t: TaskId)
    requires Inv(q) && Timely(q)
    requires t in Next(q, s).tasks
    ensures PhaseFits(Next(q, s), Next(q, s).tasks[t])
  {
    if OwnStep(s, t) {
      assert t in q.tasks ==> PhaseFits(q, q.tasks[t]);
      OwnStepFits(q, s);
    } else {
      OthersKeepPhase(q, s, t);
      assert PhaseFits(q, q.tasks[t]);
      var p := q.tasks[t];
      if Holds(p, if p.Idle? then 0 else p.id) { HeldRowStays(q, s, t, p.id); }
      hide Next, Inv, Timely;
    }
  }

  /** The phase a step's own task was in before and is in after. */
  predicate Starts(q: Queue, s: Step, id: Id) {
    s.SubmitOk? && PhaseOf(q, s.task).Holding? && PhaseOf(q, s.task).id == id
  }

  predicate Ends(q: Queue, s: Step, id: Id) {
    && (s.MarkReplayed? || s.Die?) && PhaseOf(q, s.task).Submitted? && PhaseOf(q, s.task).id == id
    && PhaseOf(Next(q, s), s.task).Idle?
  }

  /** A submission the chain accepts although the call throws. */
  predicate Strays(q: Queue, s: Step, id: Id) {
    s.SubmitFails? && s.landed && PhaseOf(q, s.task).Holding? && PhaseOf(q, s.task).id == id
  }

  lemma OwnFlight(q: Queue, s: Step, t: TaskId, id: Id)
    ensures Flies(PhaseOf(Next(q, s), t), id) <==>
              if OwnStep(s, t) then Starts(q, s, id) || (Flies(PhaseOf(q, t), id) && !Ends(q, s, id))
              else Flies(PhaseOf(q, t), id)
  {}

  /** The only submission a step can start or finish is its own task's. */
  lemma StepInFlight(q: Queue, s: Step, id: Id)
    requires Exclusive(q)
    ensures InFlight(Next(q, s), id) <==> Starts(q, s, id) || (InFlight(q, id) && !Ends(q, s, id))
    ensures Starts(q, s, id) ==> !InFlight(q, id)
    ensures Ends(q, s, id) ==> InFlight(q, id)
  {
    var n := Next(q, s);
    forall t ensures Flies(PhaseOf(n, t), id) <==>
              if OwnStep(s, t) then Starts(q, s, id) || (Flies(PhaseOf(q, t), id) && !Ends(q, s, id))
              else Flies(PhaseOf(q, t), id) { OwnFlight(q, s, t, id); }
    hide Next;
    forall t: TaskId | Flies(PhaseOf(q, t), id) && (Starts(q, s, id) || Ends(q, s, id)) ensures t == s.task {
      assert Holds(q.tasks[t], id) && Holds(q.tasks[s.task], id);
    }
    if Starts(q, s, id) {
      assert Flies(PhaseOf(n, s.task), id);
    } else if InFlight(q, id) && !Ends(q, s, id) {
      var t: TaskId :| Flies(PhaseOf(q, t), id);
      assert Flies(PhaseOf(n, t), id);
    }
  }

  /** How a step moves the three counters of a record. */
  lemma StepCounts(q: Queue, s: Step, id: Id)
    requires Inv(q) && Timely(q)
    ensures var n := Next(q, s);
            && Count(n.submitted, id)
               == Count(q.submitted, id) + (if Starts(q, s, id) || Strays(q, s, id) then 1 else 0)
            && Count(n.lost, id)
               == Count(q.lost, id) + (if (Ends(q, s, id) && s.Die?) || Strays(q, s, id) then 1 else 0)
            && Count(n.replayed, id) == Count(q.replayed, id) + (if Ends(q, s, id) && s.MarkReplayed? then 1 else 0)
  {
    hide Ledger, Exclusive;
    if s.MarkReplayed? && PhaseOf(q, s.task).Submitted? { assert PhaseFits(q, q.tasks[s.task]); }
  }

  /** A record leaves REPLAYED and ABANDONED never, and enters REPLAYED only by being marked. */
  lemma StepStatus(q: Queue, s: Step, id: Id)
    requires Inv(q) && Timely(q)
    ensures id in q.rows ==> id in Next(q, s).rows
    ensures id in q.rows && (q.rows[id].status.Replayed? || q.rows[id].status.Abandoned?) ==>
              Next(q, s).rows[id].status == q.rows[id].status
    ensures id in Next(q, s).rows && Next(q, s).rows[id].status.Replayed? ==>
              (id in q.rows && q.rows[id].status.Replayed?) || (Ends(q, s, id) && s.MarkReplayed?)
    ensures Ends(q, s, id) && s.MarkReplayed? ==>
              id in q.rows && q.rows[id].status.Replaying? && Next(q, s).rows[id].status.Replayed?
  {
    hide Ledger, Exclusive;
    if !s.Tick? && !s.Enqueue? && !s.MarkReviewed? && s.task in q.tasks { assert PhaseFits(q, q.tasks[s.task]); }
  }

  lemma StepKeepsLedger(q: Queue, s: Step)
    requires Inv(q) && Timely(q)
    ensures Ledger(Next(q, s))
  {
    var n := Next(q, s);
    forall id
      ensures Count(n.replayed, id) == (if id in n.rows && n.rows[id].status.Replayed? then 1 else 0)
      ensures Count(n.submitted, id) == Count(n.replayed, id) + Count(n.lost, id) + (if InFlight(n, id) then 1 else 0)
    {
      StepInFlight(q, s, id);
      StepCounts(q, s, id);
      StepStatus(q, s, id);
      assert Count(q.submitted, id) == Count(q.replayed, id) + Count(q.lost, id) + (if InFlight(q, id) then 1 else 0);
      hide Next;
    }
  }

  // ── Runs ──────────────────────────────────────────────────────────────────

  function Run(q: Queue, steps: seq<Step>): Queue
    decreases |steps|
  {
    if steps == [] then q else Run(Next(q, steps[0]), steps[1..])
  }

  /** Every replay that was claimed ends before its claim reaches the threshold. */
  ghost predicate TimelyRun(q: Queue, steps: seq<Step>)
    decreases |steps|
  {
    Timely(q) && (steps != [] ==> TimelyRun(Next(q, steps[0]), steps[1..]))
  }

  lemma StepKeepsInv(q: Queue, s: Step)
    requires Inv(q) && Timely(q)
    ensures Inv(Next(q, s))
  {
    StepKeepsExclusive(q, s);
    StepKeepsLedger(q, s);
    var n := Next(q, s);
    forall t | t in n.tasks ensures PhaseFits(n, n.tasks[t]) { StepKeepsFits(q, s, t); }
  }

  /**
   * In every interleaving of any number of operators whose replays end in time: at most one
   * replay per record is in flight, at most one is ever marked successful, and REPLAYED and
   * ABANDONED are for ever, so no record is both.
   */
  lemma {:induction false} ReplayExclusion(q: Queue, steps: seq<Step>, id: Id)
    requires Inv(q) && TimelyRun(q, steps)
    ensures var r := Run(q, steps);
            && Inv(r) && Exclusive(r)
            && Count(r.replayed, id) <= 1
            && (id in q.rows && (q.rows[id].status.Replayed? || q.rows[id].status.Abandoned?) ==>
                  && id in r.rows && r.rows[id].status == q.rows[id].status
                  && Count(r.replayed, id) == Count(q.replayed, id))
    decreases |steps|
  {
    if steps != [] {
      StepKeepsInv(q, steps[0]);
      StepStatus(q, steps[0], id);
      hide Next;
      ReplayExclusion(Next(q, steps[0]), steps[1..], id);
    }
  }

  /** The chain accepts a second submission of a record only after losing track of the first. */
  lemma SubmissionsAccountedFor(q: Queue, steps: seq<Step>, id: Id)
    requires Inv(q) && TimelyRun(q, steps)
    ensures Count(Run(q, steps).submitted, id) <= 1 + Count(Run(q, steps).lost, id)
  {
    ReplayExclusion(q, steps, id);
    var r := Run(q, steps);
    if InFlight(r, id) {
      var t: TaskId :| Flies(PhaseOf(r, t), id);
      assert PhaseFits(r, r.tasks[t]);
    }
  }

  lemma TwoSteps(q: Queue, a: Step, b: Step)
    ensures Run(q, [a, b]) == Next(Next(q, a), b)
  {
    hide Next;
    assert [a, b][1..] == [b] && [b][1..] == [];
    assert Run(Next(q, a), [b]) == Run(Next(Next(q, a), b), []);
  }

  /**
   * The time limit is exact: a second operator can take a held record over if and only if
   * its last stamp is as old as the threshold.
   */
  lemma TakeOverExactly(q: Queue, t: TaskId, u: TaskId, id: Id)
    requires Inv(q) && t in q.tasks && Holds(q.tasks[t], id)
    requires u != t && PhaseOf(q, u).Idle?
    ensures Holds(PhaseOf(Run(q, [ReadForReplay(u, id), Claim(u)]), u), id)
            <==> q.now - q.rows[id].updatedAt >= 300000
  {
    assert PhaseFits(q, q.tasks[t]);
    TwoSteps(q, ReadForReplay(u, id), Claim(u));
  }

  lemma UnrollFour(q: Queue, s: seq<Step>)
    requires |s| >= 4
    ensures Run(q, s) == Run(Next(Next(Next(Next(q, s[0]), s[1]), s[2]), s[3]), s[4..])
  {
    hide Next;
    var a := Next(q, s[0]);
    var b := Next(a, s[1]);
    var c := Next(b, s[2]);
    assert s[1..][1..] == s[2..] && s[2..][1..] == s[3..] && s[3..][1..] == s[4..];
    assert Run(q, s) == Run(a, s[1..]) == Run(b, s[2..]) == Run(c, s[3..]);
  }

  /** The record waits, or its claim is five minutes old. */
  predicate Waits(r: Row, now: Time) {
    r.status == PendingReview || (r.status == Replaying && now - r.updatedAt >= 300000)
  }

  /** The calls one operator makes: with the chain's answer when it gives one, and after a call that throws. */
  function ReplaySteps(t: TaskId, id: Id, answer: Option<string>): seq<Step> {
    [ReadForReplay(t, id), Claim(t)] +
    match answer
    case Some(hash) => [SubmitOk(t, hash), MarkReplayed(t)]
    case None => [SubmitFails(t, false), ReleaseClaim(t), IncrementAttempts(t)]
  }

  lemma ClaimAlone(q: Queue, t: TaskId, id: Id)
    requires PhaseOf(q, t).Idle?
    ensures var n := Next(Next(q, ReadForReplay(t, id)), Claim(t));
            if id in q.rows && Waits(q.rows[id], q.now)
            then && PhaseOf(n, t) == Holding(id, q.now) && n.now == q.now && n.replayed == q.replayed
                 && n.rows == q.rows[id := q.rows[id].(status := Replaying, updatedAt := q.now)]
            else n == q
  {}

  lemma MarkAlone(q: Queue, t: TaskId, hash: string)
    requires PhaseOf(q, t).Holding? && PhaseOf(q, t).id in q.rows
    ensures var id, n := PhaseOf(q, t).id, Next(Next(q, SubmitOk(t, hash)), MarkReplayed(t));
            && PhaseOf(n, t).Idle? && Count(n.replayed, id) == Count(q.replayed, id) + 1
            && n.rows == q.rows[id := q.rows[id].(status := Replayed, updatedAt := q.now, txHash := Some(hash))]
  {}

  lemma FailAlone(q: Queue, t: TaskId)
    requires PhaseOf(q, t).Holding? && PhaseOf(q, t).id in q.rows
    ensures var id := PhaseOf(q, t).id;
            var n := Next(Next(Next(q, SubmitFails(t, false)), ReleaseClaim(t)), IncrementAttempts(t));
            && PhaseOf(n, t).Idle? && n.replayed == q.replayed
            && n.rows == q.rows[id := q.rows[id].(status := PendingReview, updatedAt := q.now,
                                                  attempts := q.rows[id].attempts + 1)]
  {
    var id := PhaseOf(q, t).id;
    var a := Next(q, SubmitFails(t, false));
    assert a == To(q, t, Releasing(id, PhaseOf(q, t).since));
    var b := Next(a, ReleaseClaim(t));
    assert b == To(q, t, Bumping(id)).(rows := q.rows[id := q.rows[id].(status := PendingReview, updatedAt := q.now)]);
  }

  lemma IdleStays(q: Queue, s: Step)
    requires s.SubmitOk? || s.SubmitFails? || s.MarkReplayed? || s.ReleaseClaim? || s.IncrementAttempts?
    requires PhaseOf(q, s.task).Idle?
    ensures Next(q, s) == q
  {}

  /** A replay that nobody interrupts: the record it leaves, and the marks it makes. */
  lemma ReplayAlone(q: Queue, t: TaskId, id: Id, answer: Option<string>)
    requires PhaseOf(q, t).Idle?
    ensures var n := Run(q, ReplaySteps(t, id, answer));
            var due := id in q.rows && Waits(q.rows[id], q.now);
            && PhaseOf(n, t).Idle?
            && Count(n.replayed, id) == Count(q.replayed, id) + (if due && answer.Some? then 1 else 0)
            && (!due ==> n.rows == q.rows)
            && (due ==> n.rows == q.rows[id := if answer.Some?
                                              then q.rows[id].(status := Replayed, updatedAt := q.now, txHash := answer)
                                              else q.rows[id].(status := PendingReview, updatedAt := q.now,
                                                               attempts := q.rows[id].attempts + 1)])
  {
    hide Next, PhaseOf;
    var steps := ReplaySteps(t, id, answer);
    UnrollFour(q, steps);
    ClaimAlone(q, t, id);
    var b := Next(Next(q, steps[0]), steps[1]);
    var d := Next(Next(b, steps[2]), steps[3]);
    if answer.None? {
      assert steps[4..] == [steps[4]] && [steps[4]][1..] == [];
      assert Run(d, steps[4..]) == Run(Next(d, steps[4]), []);
    }
    if id in q.rows && Waits(q.rows[id], q.now) {
      if answer.Some? { MarkAlone(b, t, answer.value); } else { FailAlone(b, t); }
    } else {
      IdleStays(q, steps[2]);
      IdleStays(q, steps[3]);
      if answer.None? { IdleStays(q, steps[4]); }
    }
  }

  /** An abandonment that nobody interrupts. */
  lemma AbandonAlone(q: Queue, t: TaskId, id: Id)
    requires PhaseOf(q, t).Idle?
    ensures var n := Run(q, [ReadForAbandon(t, id), MarkAbandoned(t)]);
            && PhaseOf(n, t).Idle?
            && n.rows == if id in q.rows && Waits(q.rows[id], q.now)
                         then q.rows[id := q.rows[id].(status := Abandoned, updatedAt := q.now,
                                                       reviewedAt := Some(q.now))]
                         else q.rows
  {
    TwoSteps(q, ReadForAbandon(t, id), MarkAbandoned(t));
  }

  /** The steps that no replay is part of: the clock, a new record, a review. */
  lemma AsideExactly(q: Queue, s: Step)
    requires s.Tick? || s.Enqueue? || s.MarkReviewed?
    ensures var n := Next(q, s);
            && n == q.(now := n.now, rows := n.rows)
            && n.now == (if s.Tick? && s.to > q.now then s.to else q.now)
            && n.rows == if s.Enqueue? && s.id !in q.rows
                         then q.rows[s.id := Row(PendingReview, q.now, s.attempts, None, None)]
                         else if s.MarkReviewed? && s.id in q.rows
                         then q.rows[s.id := q.rows[s.id].(updatedAt := q.now, reviewedAt := Some(q.now))]
                         else q.rows
  {}

  lemma AbandonStale(q: Queue, u: TaskId, id: Id)
    requires PhaseOf(q, u).Idle? && id in q.rows && q.rows[id].status.Replaying?
    requires q.rows[id].updatedAt + REPLAYING_STALE_THRESHOLD_MS <= q.now
    ensures var a := Next(Next(q, ReadForAbandon(u, id)), MarkAbandoned(u));
            && id in a.rows && a.rows[id].status.Abandoned?
            && forall t :: t != u ==> PhaseOf(a, t) == PhaseOf(q, t)
  {
    var b := Next(q, ReadForAbandon(u, id));
    assert b == To(q, u, Abandoning(id, q.now - REPLAYING_STALE_THRESHOLD_MS));
  }

  lemma MarkTakesEffect(q: Queue, t: TaskId)
    requires PhaseOf(q, t).Submitted? && PhaseOf(q, t).id in q.rows
    ensures var n := Next(q, MarkReplayed(t));
            PhaseOf(q, t).id in n.rows && n.rows[PhaseOf(q, t).id].status.Replayed?
  {}

  /** Past the limit everything fails at once: the record is abandoned and then marked replayed. */
  lemma OverrunBreaksBoth(q: Queue, t: TaskId, u: TaskId, id: Id)
    requires Inv(q) && t in q.tasks && q.tasks[t].Submitted? && q.tasks[t].id == id
    requires u != t && PhaseOf(q, u).Idle?
    requires q.rows[id].updatedAt + REPLAYING_STALE_THRESHOLD_MS <= q.now
    ensures var a := Run(q, [ReadForAbandon(u, id), MarkAbandoned(u)]);
            && id in a.rows && a.rows[id].status.Abandoned?
            && id in Next(a, MarkReplayed(t)).rows && Next(a, MarkReplayed(t)).rows[id].status.Replayed?
  {
    assert PhaseFits(q, q.tasks[t]);
    hide Inv, Run;
    TwoSteps(q, ReadForAbandon(u, id), MarkAbandoned(u));
    AbandonStale(q, u, id);
    MarkTakesEffect(Next(Next(q, ReadForAbandon(u, id)), MarkAbandoned(u)), t);
    hide Next;
  }

  // ── The service as one operator runs it ───────────────────────────────────

  datatype Answer = NotFound | Conflict | ReplayFailed | Ok(row: Row)

  class DlqService {
    var rows: Table

    constructor ()
      ensures rows == map[]
    {
      rows := map[];
    }

    /**
     * A new record waits: whatever the staleness limit, the next claim takes it. It counts the attempts
     * its caller made, one when it does not say. No other record changes.
     */
    method Enqueue(id: Id, attempts: Option<nat>, now: Time)
      requires id !in rows
      modifies this
      ensures rows.Keys == old(rows).Keys + {id} && forall k :: k in old(rows) ==> rows[k] == old(rows)[k]
      ensures forall staleBefore :: Claimable(rows, id, staleBefore)
      ensures attempts.Some? ==> rows[id].attempts == attempts.value
      ensures attempts.None? ==> rows[id].attempts == 1
      ensures rows[id].txHash.None? && rows[id].reviewedAt.None?
    {
      rows := rows[id := NewRow(now, if attempts.Some? then attempts.value else 1)];
    }

    /**
     * The compare-and-set: it wins if and only if the record waits or its claim is stale, and then no
     * other claim wins before this one is stale. Nothing but status and stamp of that record changes.
     */
    method ClaimForReplay(id: Id, staleBefore: Time, now: Time) returns (claimed: bool)
      modifies this
      ensures claimed <==> id in old(rows) && match old(rows)[id].status
                                              case PendingReview => true
                                              case Replaying => old(rows)[id].updatedAt <= staleBefore
                                              case Replayed => false
                                              case Abandoned => false
      ensures !claimed ==> rows == old(rows)
      ensures claimed ==> rows.Keys == old(rows).Keys && forall k :: k in rows && k != id ==> rows[k] == old(rows)[k]
      ensures claimed ==> forall t :: Claimable(rows, id, t) <==> now <= t
      ensures claimed ==> rows[id] == old(rows)[id].(status := rows[id].status, updatedAt := rows[id].updatedAt)
      ensures claimed ==> rows[id].status.Replaying?
    {
      claimed := Claimable(rows, id, staleBefore);
      if claimed { rows := Write(rows, id, rows[id].(status := Replaying), now); }
    }

    /** `outcome` is what the chain answers: a transaction hash, or nothing when the call throws. */
    method Replay(id: Id, outcome: Option<string>, now: Time) returns (a: Answer)
      modifies this
      ensures a.NotFound? <==> id !in old(rows)
      ensures a.Conflict? <==> id in old(rows) && !Waits(old(rows)[id], now)
      ensures a.NotFound? || a.Conflict? ==> rows == old(rows)
      ensures a.ReplayFailed? ==> outcome.None?
      ensures a.Ok? ==> outcome.Some? && id in rows && a.row == rows[id]
      ensures a.ReplayFailed? ==>
                rows == old(rows)[id := old(rows)[id].(status := PendingReview, updatedAt := now,
                                                       attempts := old(rows)[id].attempts + 1)]
      ensures a.Ok? ==>
                rows == old(rows)[id := old(rows)[id].(status := Replayed, updatedAt := now, txHash := outcome)]
    {
      if id !in rows { return NotFound; }
      var staleBefore := now - REPLAYING_STALE_THRESHOLD_MS;
      if !Claimable(rows, id, staleBefore) { return Conflict; }
      var claimed := ClaimForReplay(id, staleBefore, now);
      if !claimed { return Conflict; }
      if outcome.None? {
        rows := Write(rows, id, rows[id].(status := PendingReview), now);
        rows := Write(rows, id, rows[id].(attempts := rows[id].attempts + 1), now);
        return ReplayFailed;
      }
      rows := Write(rows, id, rows[id].(status := Replayed, txHash := outcome), now);
      return Ok(rows[id]);
    }

    method Abandon(id: Id, now: Time) returns (a: Answer)
      modifies this
      ensures a.NotFound? <==> id !in old(rows)
      ensures a.Conflict? <==> id in old(rows) && !Waits(old(rows)[id], now)
      ensures a.NotFound? || a.Conflict? ==> rows == old(rows)
      ensures !a.ReplayFailed?
      ensures a.Ok? ==> id in rows && a.row == rows[id]
      ensures a.Ok? ==>
                rows == old(rows)[id := old(rows)[id].(status := Abandoned, updatedAt := now, reviewedAt := Some(now))]
    {
      if id !in rows { return NotFound; }
      if !Claimable(rows, id, now - REPLAYING_STALE_THRESHOLD_MS) { return Conflict; }
      rows := Write(rows, id, rows[id].(status := Abandoned, reviewedAt := Some(now)), now);
      return Ok(rows[id]);
    }
  }
}
