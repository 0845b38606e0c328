/**
 * Redelivery of a payment among other writers: whatever they do between and within its deliveries, a
 * success leaves no escrow it selected behind.
 *
 * Models src/webhooks/stellar-webhook.service.ts.
 */
module WebhookRuns {
  import opened EscrowTables
  import S = ChainSync
  import L = Lifecycle
  import opened StellarWebhook

  // ── What a payment selects ────────────────────────────────────────────────

  /** Every row is listed once, and every listed row exists. */
  predicate Listed(db: Db) { RowsOnce(db) && forall i :: 0 <= i < |db.order| ==> db.order[i] in db.escrows }

  predicate StillCreated(db: Db, i: nat)
    requires i < |db.order|
  {
    db.order[i] in db.escrows && db.escrows[db.order[i]].state.Created?
  }

  /** The payment selects the `i`-th row: the payee's, matching, and with fewer than a page newer. */
  predicate Selected(db: Db, p: L.Payment, i: nat)
    requires i < |db.order| && !NoTo(p)
  {
    && OfVendor(db, i, p.to.value) && L.Funds(db.escrows[db.order[i]], p)
    && Newer(db, p.to.value, i + 1, |db.order|) < L.PAGE_SIZE
  }

  lemma SelectedIsFunded(db: Db, p: L.Payment, i: nat)
    requires Listed(db) && i < |db.order| && !NoTo(p)
    ensures Selected(db, p, i) <==> db.order[i] in L.Funded(db, p)
  {
    PageExactly(db, p.to.value, |db.order|, L.PAGE_SIZE, i);
    FundedIsSelect(db, p);
  }

  /** The terms stay, and a row that has left CREATED does not return. */
  predicate SameTerms(r: Escrow, s: Escrow) {
    && (s.vendor, s.amount, s.currency) == (r.vendor, r.amount, r.currency)
    && (s.state.Created? ==> r.state.Created?)
  }

  lemma FundedAt(db: Db, p: L.Payment, id: Id) returns (i: nat)
    requires Listed(db) && id in L.Funded(db, p)
    ensures !NoTo(p) && i < |db.order| && db.order[i] == id && Selected(db, p, i)
  {
    PageOnce(db, p.to.value, |db.order|, L.PAGE_SIZE);
    FundedIsSelect(db, p);
    assert db.order[..|db.order|] == db.order;
    i :| 0 <= i < |db.order| && db.order[i] == id;
    SelectedIsFunded(db, p, i);
  }

  /** A step keeps the listed rows with their terms, and lists at most rows of other vendors. */
  predicate Extends(a: Db, b: Db, vendor: Address) {
    && a.order <= b.order && Listed(b)
    && (forall id :: id in a.escrows ==> id in b.escrows && SameTerms(a.escrows[id], b.escrows[id]))
    && (forall i :: |a.order| <= i < |b.order| ==> !OfVendor(b, i, vendor))
  }

  lemma {:induction false} NewerStable(a: Db, b: Db, vendor: Address, from: nat, n: nat)
    requires Listed(a) && Extends(a, b, vendor) && from <= n <= |b.order| && from <= |a.order|
    ensures Newer(b, vendor, from, n) == Newer(a, vendor, from, if n <= |a.order| then n else |a.order|)
    decreases n
  {
    if from < n {
      NewerStable(a, b, vendor, from, n - 1);
      if n <= |a.order| { assert b.order[n - 1] == a.order[n - 1]; }
    }
  }

  /** A selected row is selected until it leaves CREATED. */
  lemma SelectedStays(a: Db, b: Db, p: L.Payment, i: nat)
    requires Listed(a) && !NoTo(p) && Extends(a, b, p.to.value) && i < |a.order|
    requires StillCreated(a, i) ==> Selected(a, p, i)
    ensures i < |b.order| && b.order[i] == a.order[i]
    ensures StillCreated(b, i) ==> StillCreated(a, i) && Selected(b, p, i)
  {
    NewerStable(a, b, p.to.value, i + 1, |b.order|);
  }

  // ── Every step extends the tables ─────────────────────────────────────────

  predicate Rival(a: L.Action, vendor: Address) { a.Create? && a.vendor == vendor }

  lemma SyncKeepsOrder(db: Db, e: S.ChainEvent, now: Time)
    ensures S.Sync(db, e, now).0.order == db.order
  {
    S.SyncUnfold(db, e, now);
  }

  lemma RowStepKeepsOrder(db: Db, a: L.Action)
    requires !a.Chain? && !a.Create? && !a.Pay?
    ensures L.RowStep(db, a).0.order == db.order
  {}

  lemma {:induction false} FundAllKeepsOrder(db: Db, ids: seq<Id>)
    requires forall id :: id in ids ==> id in db.escrows
    ensures L.FundAll(db, ids).order == db.order
    decreases |ids|
  {
    if ids != [] { FundAllKeepsOrder(FundRow(db, ids[0]), ids[1..]); }
  }

  lemma StepKeepsOrder(db: Db, a: L.Action)
    requires !a.Create?
    ensures L.Step(db, a).0.order == db.order
  {
    if a.Chain? {
      L.ChainStepIsSync(db, a.event, a.now);
      SyncKeepsOrder(db, a.event, a.now);
    } else if a.Pay? {
      FundAllKeepsOrder(db, L.Funded(db, a.payment));
    } else {
      RowStepKeepsOrder(db, a);
    }
  }

  lemma CreateExtends(db: Db, a: L.Action, vendor: Address)
    requires a.Create? && Listed(db) && !Rival(a, vendor)
    ensures Extends(db, L.Step(db, a).0, vendor)
  {}

  lemma StepExtends(db: Db, a: L.Action, vendor: Address)
    requires Listed(db) && !Rival(a, vendor)
    ensures Extends(db, L.Step(db, a).0, vendor)
  {
    if a.Create? {
      CreateExtends(db, a, vendor);
    } else {
      StepKeepsOrder(db, a);
      L.StepAdvances(db, a);
      hide L.Step;
      var next := L.Step(db, a).0;
      forall id | id in db.escrows ensures id in next.escrows && SameTerms(db.escrows[id], next.escrows[id]) {
        assert RowAdvances(db.escrows[id], next.escrows[id]);
      }
    }
  }

  lemma FundRowExtends(db: Db, id: Id, vendor: Address)
    requires Listed(db) && id in db.escrows
    ensures Extends(db, FundRow(db, id), vendor)
  {}

  // ── Runs ──────────────────────────────────────────────────────────────────

  /** Deliveries of the operation carry its payment, and nobody creates an escrow of the payee. */
  predicate Undisturbed(s: Step, op: Op, p: L.Payment) {
    && (s.Receive? && s.op == op ==> s.pay == p)
    && (s.Other? ==> p.to.Some? ==> !Rival(s.act, p.to.value))
  }

  /** As long as the row is CREATED it is selected, and every loaded delivery still has it to fund. */
  predicate Pursued(w: World, op: Op, p: L.Payment, i: nat)
    requires !NoTo(p)
  {
    && Listed(w.db) && i < |w.db.order|
    && (forall t :: t in w.running && w.running[t].op == op ==> w.running[t].pay == p)
    && (StillCreated(w.db, i) ==>
          && Selected(w.db, p, i) && op !in w.succeeded
          && forall t :: t in w.running && w.running[t].op == op && w.running[t].phase.Paying? ==>
               w.db.order[i] in w.running[t].phase.left)
  }

  /** A step that writes no row. */
  lemma QuietKeepsPursued(w: World, s: Step, op: Op, p: L.Payment, i: nat)
    requires !NoTo(p) && Pursued(w, op, p, i) && Undisturbed(s, op, p) && !s.Other? && !s.Fund?
    ensures Pursued(Next(w, s), op, p, i) && Next(w, s).db == w.db
  {
    hide L.Funded, Selected, Listed;
    if s.Load? { SelectedIsFunded(w.db, p, i); }
  }

  lemma FundKeepsPursued(w: World, s: Step, op: Op, p: L.Payment, i: nat)
    requires !NoTo(p) && Pursued(w, op, p, i) && s.Fund?
    ensures Pursued(Next(w, s), op, p, i) && Next(w, s).db.order == w.db.order
  {
    hide L.Funded, Selected, Listed;
    if s.task in w.running && w.running[s.task].phase.Paying? && w.running[s.task].phase.left != [] {
      var left := w.running[s.task].phase.left;
      if s.ok && left[0] in w.db.escrows {
        FundRowExtends(w.db, left[0], p.to.value);
        SelectedStays(w.db, FundRow(w.db, left[0]), p, i);
      }
    }
  }

  lemma OtherKeepsPursued(w: World, s: Step, op: Op, p: L.Payment, i: nat)
    requires !NoTo(p) && Pursued(w, op, p, i) && Undisturbed(s, op, p) && s.Other?
    ensures Pursued(Next(w, s), op, p, i) && Next(w, s).db.order[i] == w.db.order[i]
  {
    hide L.Step, Selected;
    StepExtends(w.db, s.act, p.to.value);
    SelectedStays(w.db, L.Step(w.db, s.act).0, p, i);
  }

  lemma {:induction false} RunKeepsPursued(w: World, steps: seq<Step>, op: Op, p: L.Payment, i: nat)
    requires !NoTo(p) && Pursued(w, op, p, i)
    requires forall k :: 0 <= k < |steps| ==> Undisturbed(steps[k], op, p)
    ensures var r := Run(w, steps); Pursued(r, op, p, i) && r.db.order[i] == w.db.order[i]
    decreases |steps|
  {
    hide Next, Undisturbed, Selected, Listed;
    if steps != [] {
      var s := steps[0];
      assert Undisturbed(s, op, p);
      if s.Other? {
        OtherKeepsPursued(w, s, op, p, i);
      } else if s.Fund? {
        FundKeepsPursued(w, s, op, p, i);
      } else {
        QuietKeepsPursued(w, s, op, p, i);
      }
      RunKeepsPursued(Next(w, s), steps[1..], op, p, i);
    }
  }

  /**
   * With any other operations and any other writers between and within its deliveries, as long as
   * nobody creates an escrow of the payee: when a delivery of the payment succeeds, every escrow it
   * selected at the start is at FUNDED or beyond, and stays there.
   */
  lemma SuccessFundsAll(w: World, steps: seq<Step>, op: Op, p: L.Payment, id: Id)
    requires Empty(w) && Listed(w.db) && id in L.Funded(w.db, p)
    requires forall k :: 0 <= k < |steps| ==> Undisturbed(steps[k], op, p)
    ensures var r := Run(w, steps);
            && id in r.db.escrows
            && (op in r.succeeded ==> Rank(r.db.escrows[id].state) >= Rank(State.Funded))
  {
    hide L.Funded, Selected, Next;
    var i := FundedAt(w.db, p, id);
    RunKeepsPursued(w, steps, op, p, i);
  }
}
