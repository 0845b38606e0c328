/**
 * The auto-release worker by itself: one run over the eligible escrows, oldest delivery first.
 *
 * Models src/workers/auto-release.worker.ts and `findAutoReleaseEligible` of
 * src/escrow/escrow.repository.ts.
 */
module ReleaseWorker {
  import opened EscrowTables
  import opened AutoRelease
  import L = Lifecycle
  import W = WriterEffects

  // ── One escrow ────────────────────────────────────────────────────────────

  /** The hash, or None when the call throws; and whether the write that follows each goes through. */
  datatype Outcome = Outcome(answer: Option<string>, recordOk: bool, clearOk: bool)

  datatype Result = Skipped | Submission | Failure

  function Cleared(db: Db, id: Id, ok: bool): Db { if ok then L.Step(db, L.ClearRelease(id)).0 else db }

  /** `processEscrow` on a row of the snapshot. */
  function ProcessEscrow(db: Db, id: Id, snap: Escrow, o: Outcome, now: Time): (Db, Result) {
    if HasDispute(db, id) || Terminal(snap.state)
       || (snap.autoReleaseTxHash.Some? && snap.autoReleaseTxHash.value != "")
       || snap.contractId.None? || id !in db.escrows || Claimed(db, id) then (db, Skipped)
    else
      var claimed := L.Step(db, L.ClaimRelease(id, now)).0;
      if o.answer.Some? && o.recordOk then (L.Step(claimed, L.RecordRelease(id, o.answer.value, now)).0, Submission)
      else (Cleared(claimed, id, o.clearOk), Failure)
  }

  /** Nothing in the tables or in the snapshot keeps the worker from calling the contract. */
  predicate Ready(db: Db, id: Id, snap: Escrow) {
    && (forall i :: 0 <= i < |db.disputes| ==> db.disputes[i].escrowId != id)
    && snap.state !in {Completed, Released, Refunded, State.Cancelled}
    && (snap.autoReleaseTxHash == None || snap.autoReleaseTxHash == Some("")) && snap.contractId.Some?
    && id in db.escrows && db.escrows[id].autoReleaseSubmittedAt == None
  }

  /** The row of an escrow the contract is called for: hash and time, or as before, or the claim alone. */
  function CalledRow(r: Escrow, o: Outcome, now: Time): Escrow {
    if o.recordOk && o.answer.Some? then r.(autoReleaseSubmittedAt := Some(now), autoReleaseTxHash := o.answer)
    else if o.clearOk then r else r.(autoReleaseSubmittedAt := Some(now))
  }

  /** Each result, when it comes, and the row it leaves. */
  lemma ProcessExactly(db: Db, id: Id, snap: Escrow, o: Outcome, now: Time)
    ensures var (next, result) := ProcessEscrow(db, id, snap, o, now);
            && (result == Skipped <==> !Ready(db, id, snap))
            && (result == Submission <==> Ready(db, id, snap) && o.answer.Some? && o.recordOk)
            && if Ready(db, id, snap) then W.OnlyRow(db, next, id, CalledRow(db.escrows[id], o, now)) else next == db
  {
    var i := FindDispute(db.disputes, id);
    if i.Some? { assert db.disputes[i.value].escrowId == id; }
    var (next, result) := ProcessEscrow(db, id, snap, o, now);
    if Ready(db, id, snap) {
      var row := db.escrows[id];
      var claimed := L.Step(db, L.ClaimRelease(id, now)).0;
      assert claimed.escrows == db.escrows[id := row.(autoReleaseSubmittedAt := Some(now))];
      assert next.escrows == db.escrows[id := CalledRow(row, o, now)];
    }
  }

  /** The steps of a worker that nothing interrupts. */
  function Alone(w: World, t: TaskId, o: Outcome, landed: bool): World {
    var claimed := Next(Next(w, CheckDispute(t)), Claim(t, true));
    Next(Next(Next(claimed, Submit(t, o.answer, landed)), Record(t, o.recordOk)), Clear(t, o.clearOk))
  }

  /** The straight-line code is the protocol run by one worker: same rows, and idle again afterwards. */
  lemma ProcessIsProtocol(w: World, t: TaskId, snap: Escrow, o: Outcome, landed: bool)
    requires PhaseOf(w, t).Picked? && PhaseOf(w, t).contractId == snap.contractId && PhaseOf(w, t).id in w.db.escrows
    requires !Terminal(snap.state) && snap.autoReleaseTxHash.None?
    ensures var (db, result) := ProcessEscrow(w.db, PhaseOf(w, t).id, snap, o, w.now);
            var r := Alone(w, t, o, landed);
            && r.db == db && PhaseOf(r, t).Idle?
            && (result.Skipped? <==> r.calls == w.calls)
            && (result.Submission? ==> PhaseOf(w, t).id in r.recorded)
            && (!result.Skipped? ==> (result.Submission? <==> o.answer.Some? && o.recordOk))
  {
    hide L.Step, HasDispute, Claimed, Bump;
    var checked := Next(w, CheckDispute(t));
    assert checked.db == w.db && checked.now == w.now;
    var claimed := Next(checked, Claim(t, true));
    var submitted := Next(claimed, Submit(t, o.answer, landed));
    assert submitted.db == claimed.db;
    var recorded := Next(submitted, Record(t, o.recordOk));
  }

  // ── A batch ───────────────────────────────────────────────────────────────

  datatype Job = Job(id: Id, snap: Escrow, outcome: Outcome)

  function RunJobs(db: Db, jobs: seq<Job>, now: Time): Db {
    if jobs == [] then db
    else
      var j := jobs[|jobs| - 1];
      ProcessEscrow(RunJobs(db, jobs[..|jobs| - 1], now), j.id, j.snap, j.outcome, now).0
  }

  /** How many jobs of the batch end in a given way. */
  function Tally(db: Db, jobs: seq<Job>, now: Time, result: Result): (n: nat)
    ensures n <= |jobs|
    decreases |jobs|
  {
    if jobs == [] then 0
    else
      var init, j := jobs[..|jobs| - 1], jobs[|jobs| - 1];
      Tally(db, init, now, result)
      + if ProcessEscrow(RunJobs(db, init, now), j.id, j.snap, j.outcome, now).1 == result then 1 else 0
  }

  lemma ProcessFrame(db: Db, id: Id, snap: Escrow, o: Outcome, now: Time)
    ensures var next := ProcessEscrow(db, id, snap, o, now).0;
            && next.disputes == db.disputes && next.escrows.Keys == db.escrows.Keys
            && (forall k :: k in db.escrows && k != id ==> next.escrows[k] == db.escrows[k])
            && (id in db.escrows ==> next.escrows[id].state == db.escrows[id].state)
  {}

  /** What a job does depends on its own row and disputes only. */
  lemma ProcessLocal(a: Db, b: Db, id: Id, snap: Escrow, o: Outcome, now: Time)
    requires a.disputes == b.disputes && id in a.escrows && id in b.escrows && a.escrows[id] == b.escrows[id]
    ensures ProcessEscrow(a, id, snap, o, now).1 == ProcessEscrow(b, id, snap, o, now).1
    ensures ProcessEscrow(a, id, snap, o, now).0.escrows[id] == ProcessEscrow(b, id, snap, o, now).0.escrows[id]
  {}

  predicate DistinctJobs(jobs: seq<Job>) { forall j, k :: 0 <= j < k < |jobs| ==> jobs[j].id != jobs[k].id }

  lemma {:induction false} BatchUntouched(db: Db, jobs: seq<Job>, now: Time, id: Id)
    requires forall j :: 0 <= j < |jobs| ==> jobs[j].id != id
    ensures var next := RunJobs(db, jobs, now);
            && next.disputes == db.disputes && next.escrows.Keys == db.escrows.Keys
            && (id in db.escrows ==> next.escrows[id] == db.escrows[id])
    decreases |jobs|
  {
    hide L.Step, ProcessEscrow;
    if jobs != [] {
      var n := |jobs| - 1;
      BatchUntouched(db, jobs[..n], now, id);
      ProcessFrame(RunJobs(db, jobs[..n], now), jobs[n].id, jobs[n].snap, jobs[n].outcome, now);
    }
  }

  /** Whatever fails in a batch, every escrow of the snapshot ends as if it had been alone in it. */
  lemma {:induction false} BatchIsolates(db: Db, jobs: seq<Job>, now: Time, i: nat)
    requires i < |jobs| && jobs[i].id in db.escrows && DistinctJobs(jobs)
    ensures var j := jobs[i]; var next := RunJobs(db, jobs, now);
            && next.disputes == db.disputes && next.escrows.Keys == db.escrows.Keys
            && next.escrows[j.id] == ProcessEscrow(db, j.id, j.snap, j.outcome, now).0.escrows[j.id]
    decreases |jobs|
  {
    hide L.Step, ProcessEscrow;
    var n := |jobs| - 1;
    var init, last := jobs[..n], jobs[n];
    var before := RunJobs(db, init, now);
    ProcessFrame(before, last.id, last.snap, last.outcome, now);
    ProcessFrame(db, jobs[i].id, jobs[i].snap, jobs[i].outcome, now);
    if i < n {
      BatchIsolates(db, init, now, i);
    } else {
      BatchUntouched(db, init, now, last.id);
      ProcessLocal(db, before, last.id, last.snap, last.outcome, now);
    }
  }

  predicate EndsIn(db: Db, j: Job, now: Time, result: Result) {
    ProcessEscrow(db, j.id, j.snap, j.outcome, now).1 == result
  }

  /** The jobs that, each alone on the tables before the batch, end in a given way. */
  function Ending(db: Db, jobs: seq<Job>, now: Time, result: Result): set<nat> {
    set i: nat | i < |jobs| && EndsIn(db, jobs[i], now, result)
  }

  lemma EndingSnoc(db: Db, jobs: seq<Job>, now: Time, result: Result)
    requires jobs != []
    ensures |Ending(db, jobs, now, result)|
            == |Ending(db, jobs[..|jobs| - 1], now, result)|
               + if EndsIn(db, jobs[|jobs| - 1], now, result) then 1 else 0
  {
    hide EndsIn;
    var n := |jobs| - 1;
    var all, init := Ending(db, jobs, now, result), Ending(db, jobs[..n], now, result);
    assert n !in init;
    if EndsIn(db, jobs[n], now, result) {
      forall i ensures i in all <==> i in init + {n} { if 0 <= i < n { assert jobs[..n][i] == jobs[i]; } }
      assert all == init + {n};
    } else {
      forall i ensures i in all <==> i in init { if 0 <= i < n { assert jobs[..n][i] == jobs[i]; } }
      assert all == init;
    }
  }

  lemma NoneEnding(db: Db, now: Time, result: Result)
    ensures Ending(db, [], now, result) == {}
  {}

  lemma OthersDiffer(jobs: seq<Job>)
    requires DistinctJobs(jobs) && jobs != []
    ensures DistinctJobs(jobs[..|jobs| - 1]) && forall i :: 0 <= i < |jobs| - 1 ==> jobs[i].id != jobs[|jobs| - 1].id
  {}

  /** The counts are those of the escrows that end that way. */
  lemma {:induction false} TallyExactly(db: Db, jobs: seq<Job>, now: Time, result: Result)
    requires DistinctJobs(jobs) && forall i :: 0 <= i < |jobs| ==> jobs[i].id in db.escrows
    ensures Tally(db, jobs, now, result) == |Ending(db, jobs, now, result)|
    decreases |jobs|
  {
    hide ProcessEscrow, Ending, RunJobs, DistinctJobs;
    if jobs == [] {
      NoneEnding(db, now, result);
    } else {
      var n := |jobs| - 1;
      var init, j := jobs[..n], jobs[n];
      OthersDiffer(jobs);
      TallyExactly(db, init, now, result);
      BatchUntouched(db, init, now, j.id);
      ProcessLocal(db, RunJobs(db, init, now), j.id, j.snap, j.outcome, now);
      EndingSnoc(db, jobs, now, result);
    }
  }

  // ── The eligible escrows ──────────────────────────────────────────────────

  /** Ordered by delivery, then by id. */
  predicate Before(a: Job, b: Job) {
    && a.snap.deliveredAt.Some? && b.snap.deliveredAt.Some?
    && (a.snap.deliveredAt.value < b.snap.deliveredAt.value
        || (a.snap.deliveredAt == b.snap.deliveredAt && a.id < b.id))
  }

  function Place(j: Job, jobs: seq<Job>): (r: seq<Job>)
    ensures |r| == |jobs| + 1 && forall x :: x in r <==> x == j || x in jobs
  {
    if jobs == [] then [j] else if Before(j, jobs[0]) then [j] + jobs else [jobs[0]] + Place(j, jobs[1..])
  }

  /** `findAutoReleaseEligible` over the first `n` rows. */
  function Snapshot(db: Db, outcomes: map<Id, Outcome>, now: Time, n: nat): seq<Job>
    requires n <= |db.order|
  {
    if n == 0 then []
    else
      var id, rest := db.order[n - 1], Snapshot(db, outcomes, now, n - 1);
      if id in db.escrows && Eligible(db.escrows[id], now)
      then Place(Job(id, db.escrows[id], if id in outcomes then outcomes[id] else Outcome(None, true, true)), rest)
      else rest
  }

  /** Delivered at least 48 hours ago, with no hash and no claim. */
  predicate Due(r: Escrow, now: Time) {
    && r.state == Delivered && r.autoReleaseTxHash == None && r.autoReleaseSubmittedAt == None
    && r.deliveredAt.Some? && now - r.deliveredAt.value >= 172800000
  }

  lemma EligibleIsDue(r: Escrow, now: Time)
    ensures Eligible(r, now) <==> Due(r, now)
  {}

  /** A worker of the protocol picks an escrow exactly when it is due. */
  lemma PickExactly(w: World, t: TaskId, id: Id)
    requires PhaseOf(w, t).Idle?
    ensures var p := PhaseOf(Next(w, Pick(t, id)), t);
            if id in w.db.escrows && Due(w.db.escrows[id], w.now)
            then p == Picked(id, w.db.escrows[id].deliveredAt.value, w.db.escrows[id].contractId) else p.Idle?
  {}

  predicate InOrder(jobs: seq<Job>) { forall j, k :: 0 <= j < k < |jobs| ==> Before(jobs[j], jobs[k]) }

  lemma {:induction false} PlaceKeepsOrder(j: Job, jobs: seq<Job>)
    requires InOrder(jobs) && j.snap.deliveredAt.Some?
    requires forall x :: x in jobs ==> x.id != j.id && x.snap.deliveredAt.Some?
    ensures InOrder(Place(j, jobs))
    decreases |jobs|
  {
    if jobs != [] && !Before(j, jobs[0]) {
      PlaceKeepsOrder(j, jobs[1..]);
      var rest := Place(j, jobs[1..]);
      forall k | 0 <= k < |rest| ensures Before(jobs[0], rest[k]) {
        assert rest[k] in rest;
        if rest[k] != j {
          var i :| 0 <= i < |jobs[1..]| && jobs[1..][i] == rest[k];
          assert jobs[i + 1] == rest[k];
        }
      }
    } else if jobs != [] {
      assert forall k :: 0 <= k < |jobs| ==> jobs[k] == jobs[0] || Before(jobs[0], jobs[k]);
    }
  }

  /** The snapshot holds exactly the eligible rows, each once, oldest delivery first. */
  lemma {:induction false} SnapshotExactly(db: Db, outcomes: map<Id, Outcome>, now: Time, n: nat)
    requires n <= |db.order| && RowsOnce(db)
    ensures var jobs := Snapshot(db, outcomes, now, n);
            && InOrder(jobs)
            && (forall j :: j in jobs ==>
                  j.id in db.order[..n] && j.id in db.escrows && j.snap == db.escrows[j.id] && Due(j.snap, now)
                  && (j.id in outcomes ==> j.outcome == outcomes[j.id]))
            && (forall id :: id in db.order[..n] && id in db.escrows && Due(db.escrows[id], now) ==>
                  exists j :: j in jobs && j.id == id)
    decreases n
  {
    hide Eligible;
    if n > 0 {
      SnapshotExactly(db, outcomes, now, n - 1);
      if db.order[n - 1] in db.escrows { EligibleIsDue(db.escrows[db.order[n - 1]], now); }
      var id, rest := db.order[n - 1], Snapshot(db, outcomes, now, n - 1);
      assert db.order[..n] == db.order[..n - 1] + [id] && id !in db.order[..n - 1];
      if id in db.escrows && Eligible(db.escrows[id], now) {
        var j := Job(id, db.escrows[id], if id in outcomes then outcomes[id] else Outcome(None, true, true));
        PlaceKeepsOrder(j, rest);
        assert j in Place(j, rest);
        forall k | k in db.order[..n] && k in db.escrows && Due(db.escrows[k], now)
          ensures exists x :: x in Place(j, rest) && x.id == k
        {
          if k != id {
            var x :| x in rest && x.id == k;
            assert x in Place(j, rest);
          }
        }
      }
    }
  }

  /**
   * One run of the worker: each escrow that is due, undisputed and mapped ends as if it had been alone in
   * the batch, whatever fails for the others, and every other row stays as it is.
   */
  lemma CycleExactly(db: Db, outcomes: map<Id, Outcome>, now: Time, id: Id)
    requires RowsOnce(db) && id in db.escrows && id in db.order && id in outcomes
    ensures var next := RunJobs(db, Snapshot(db, outcomes, now, |db.order|), now);
            && next.disputes == db.disputes && next.escrows.Keys == db.escrows.Keys
            && next.escrows[id] == if Due(db.escrows[id], now) && Ready(db, id, db.escrows[id])
                                   then CalledRow(db.escrows[id], outcomes[id], now) else db.escrows[id]
  {
    hide ProcessEscrow, Due, Snapshot;
    var jobs := Snapshot(db, outcomes, now, |db.order|);
    SnapshotExactly(db, outcomes, now, |db.order|);
    assert db.order[..|db.order|] == db.order;
    ProcessExactly(db, id, db.escrows[id], outcomes[id], now);
    if Due(db.escrows[id], now) {
      var j :| j in jobs && j.id == id;
      var i :| 0 <= i < |jobs| && jobs[i] == j;
      BatchIsolates(db, jobs, now, i);
    } else {
      forall k | 0 <= k < |jobs| ensures jobs[k].id != id { assert jobs[k] in jobs; }
      BatchUntouched(db, jobs, now, id);
    }
  }

  class AutoReleaseWorker {
    var running: bool
    var db: Db

    constructor (db: Db)
      ensures this.db == db && !running
    {
      this.db := db;
      running := false;
    }

    /** A tick that finds the previous run still going is skipped. */
    method Run(outcomes: map<Id, Outcome>, now: Time) returns (submitted: nat, failed: nat)
      modifies this
      ensures running == old(running)
      ensures old(running) ==> db == old(db) && submitted == failed == 0
      ensures !old(running) ==>
                var jobs := Snapshot(old(db), outcomes, now, |old(db).order|);
                && db == RunJobs(old(db), jobs, now)
                && submitted == Tally(old(db), jobs, now, Submission) && failed == Tally(old(db), jobs, now, Failure)
    {
      submitted, failed := 0, 0;
      if running { return; }
      running := true;
      submitted, failed := RunCycle(outcomes, now);
      running := false;
    }

    /** Every escrow of the snapshot is handled, whatever happens to the ones before it. */
    method RunCycle(outcomes: map<Id, Outcome>, now: Time) returns (submitted: nat, failed: nat)
      modifies this`db
      ensures var jobs := Snapshot(old(db), outcomes, now, |old(db).order|);
              && db == RunJobs(old(db), jobs, now)
              && submitted == Tally(old(db), jobs, now, Submission) && failed == Tally(old(db), jobs, now, Failure)
    {
      hide ProcessEscrow, Snapshot;
      var eligible := Snapshot(db, outcomes, now, |db.order|);
      submitted, failed := 0, 0;
      for i := 0 to |eligible|
        invariant db == RunJobs(old(db), eligible[..i], now)
        invariant submitted == Tally(old(db), eligible[..i], now, Submission)
        invariant failed == Tally(old(db), eligible[..i], now, Failure)
      {
        var j := eligible[i];
        var (next, result) := ProcessEscrow(db, j.id, j.snap, j.outcome, now);
        assert eligible[..i + 1][..i] == eligible[..i];
        db := next;
        if result.Submission? { submitted := submitted + 1; }
        if result.Failure? { failed := failed + 1; }
      }
      assert eligible[..|eligible|] == eligible;
    }
  }
}
