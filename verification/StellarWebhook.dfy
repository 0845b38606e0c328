/**
 * Stellar payment webhook: operation ids are inserted before processing and removed after a failure,
 * and a payment funds the matching escrows of one vendor one write at a time.
 *
 * Models src/webhooks/stellar-webhook.service.ts and src/webhooks/stellar-webhook.repository.ts.
 */
module StellarWebhook {
  import opened EscrowTables
  import L = Lifecycle

  type Op = string

  /** Where one delivery, or one admin replay, of an operation stands. */
  datatype Phase =
    | Checked                  // the id was not in the table when it was read
    | Marked                   // the id is inserted, nothing is loaded yet
    | Paying(left: seq<Id>)    // escrows still to fund
    | Failing                  // processing threw, the id is still inserted

  datatype Delivery = Delivery(op: Op, pay: L.Payment, phase: Phase)

  /**
   * `processed` is the unique-key table. `succeeded` lists the operations whose processing
   * returned. `lost` holds the ids left in the table by a crash or by a failed delete.
   */
  datatype World = World(db: Db, processed: set<Op>, running: map<nat, Delivery>, succeeded: seq<Op>, lost: set<Op>)

  datatype Step =
    | Receive(task: nat, op: Op, pay: L.Payment)
    | Mark(task: nat, ok: bool)
    | Load(task: nat, ok: bool)
    | Fund(task: nat, ok: bool)
    | Finish(task: nat)
    | Unmark(task: nat, ok: bool)
    | Crash(task: nat)
    | Other(act: L.Action)

  predicate Active(d: Delivery) { !d.phase.Checked? }

  function SetPhase(w: World, t: nat, phase: Phase): World
    requires t in w.running
  {
    w.(running := w.running[t := w.running[t].(phase := phase)])
  }

  function End(w: World, t: nat): World { w.(running := w.running - {t}) }

  /** `updateState(id, 'FUNDED')`. */
  function FundRow(db: Db, id: Id): Db
    requires id in db.escrows
  {
    PutRow(db, id, db.escrows[id].(state := State.Funded))
  }

  function NoTo(p: L.Payment): bool { p.to.None? || p.to.value == "" }

  function TaskStep(w: World, s: Step): World
    requires !s.Receive? && !s.Other? && s.task in w.running
  {
    var d := w.running[s.task];
    match (s, d.phase)
    case (Mark(t, ok), Checked) =>
      if ok && d.op !in w.processed then SetPhase(w.(processed := w.processed + {d.op}), t, Marked) else End(w, t)
    case (Load(t, ok), Marked) =>
      if ok && !NoTo(d.pay) then SetPhase(w, t, Paying(L.Funded(w.db, d.pay))) else SetPhase(w, t, Failing)
    case (Fund(t, ok), Paying(left)) =>
      if left == [] then w
      else if ok && left[0] in w.db.escrows then SetPhase(w.(db := FundRow(w.db, left[0])), t, Paying(left[1..]))
      else SetPhase(w, t, Failing)
    case (Finish(t), Paying(left)) =>
      if left == [] then End(w.(succeeded := w.succeeded + [d.op]), t) else w
    case (Unmark(t, ok), Failing) =>
      if ok then End(w.(processed := w.processed - {d.op}), t) else End(w.(lost := w.lost + {d.op}), t)
    case (Crash(t), _) =>
      End(if Active(d) then w.(lost := w.lost + {d.op}) else w, t)
    case _ => w
  }

  function Next(w: World, s: Step): World {
    match s
    case Receive(t, op, pay) =>
      if t in w.running || op in w.processed then w
      else w.(running := w.running[t := Delivery(op, pay, Checked)])
    case Other(act) => w.(db := L.Step(w.db, act).0)
    case _ => if s.task in w.running then TaskStep(w, s) else w
  }

  function Run(w: World, steps: seq<Step>): World
    decreases |steps|
  {
    if steps == [] then w else Run(Next(w, steps[0]), steps[1..])
  }

  predicate Empty(w: World) { w.processed == {} && w.running == map[] && w.succeeded == [] && w.lost == {} }

  // ── Every operation is handled by one delivery, and succeeds once ─────────

  predicate InProcess(w: World, t: nat, op: Op) { t in w.running && Active(w.running[t]) && w.running[t].op == op }

  ghost predicate Held(w: World, op: Op) { exists t :: InProcess(w, t, op) }

  ghost predicate Inv(w: World) {
    && (forall t, u, op :: InProcess(w, t, op) && InProcess(w, u, op) ==> t == u)
    && (forall op :: op in w.processed <==> Held(w, op) || op in w.succeeded || op in w.lost)
    && (forall op :: Held(w, op) ==> op !in w.succeeded && op !in w.lost)
    && (forall i, j :: 0 <= i < j < |w.succeeded| ==> w.succeeded[i] != w.succeeded[j])
    && (forall op :: op in w.lost ==> op !in w.succeeded)
  }

  lemma TaskKeepsInv(w: World, s: Step)
    requires Inv(w) && !s.Receive? && !s.Other? && s.task in w.running
    ensures Inv(TaskStep(w, s))
  {
    hide L.Funded;
    var n := TaskStep(w, s);
    var t := s.task;
    var op := w.running[t].op;
    assert forall u, o :: u != t || o != op ==> (InProcess(n, u, o) <==> InProcess(w, u, o));
    assert forall o :: o != op ==> (Held(n, o) <==> Held(w, o));
    assert InProcess(w, t, op) ==> Held(w, op);
    assert InProcess(n, t, op) ==> Held(n, op);
  }

  lemma StepKeepsInv(w: World, s: Step)
    requires Inv(w)
    ensures Inv(Next(w, s))
  {
    hide L.Step, L.Funded;
    var n := Next(w, s);
    if s.Receive? || s.Other? || s.task !in w.running {
      assert forall t, op :: InProcess(n, t, op) <==> InProcess(w, t, op);
      assert forall op :: Held(n, op) <==> Held(w, op);
    } else {
      TaskKeepsInv(w, s);
    }
  }

  lemma {:induction false} RunKeepsInv(w: World, steps: seq<Step>)
    requires Inv(w)
    ensures Inv(Run(w, steps))
    decreases |steps|
  {
    hide Inv, Next;
    if steps != [] {
      StepKeepsInv(w, steps[0]);
      RunKeepsInv(Next(w, steps[0]), steps[1..]);
    }
  }

  lemma {:induction false} DistinctCount(xs: seq<Op>, op: Op)
    requires forall i, j :: 0 <= i < j < |xs| ==> xs[i] != xs[j]
    ensures multiset(xs)[op] == if op in xs then 1 else 0
  {
    if xs != [] {
      assert xs == [xs[0]] + xs[1..];
      DistinctCount(xs[1..], op);
    }
  }

  /**
   * Over any interleaving of deliveries, replays, failures, crashes and other writers: an operation
   * is in process at most once at a time, it succeeds at most once, and while it is in process it
   * has not succeeded before.
   */
  lemma WebhookExactlyOnce(w: World, steps: seq<Step>, t: nat, u: nat, op: Op)
    requires Empty(w)
    ensures var n := Run(w, steps);
            && (InProcess(n, t, op) && InProcess(n, u, op) ==> t == u)
            && (InProcess(n, t, op) ==> op !in n.succeeded)
            && multiset(n.succeeded)[op] <= 1
  {
    RunKeepsInv(w, steps);
    var n := Run(w, steps);
    assert InProcess(n, t, op) ==> Held(n, op);
    DistinctCount(n.succeeded, op);
  }

  /**
   * A delivery is skipped as a duplicate exactly when its operation succeeded, is in process now, or
   * was lost: in every other case, after any number of rolled-back failures, it is taken up again.
   */
  lemma SkippedExactly(w: World, steps: seq<Step>, t: nat, op: Op, pay: L.Payment)
    requires Empty(w) && t !in Run(w, steps).running
    ensures var n := Run(w, steps);
            t !in Next(n, Receive(t, op, pay)).running <==> Held(n, op) || op in n.succeeded || op in n.lost
  {
    RunKeepsInv(w, steps);
  }

  // ── Redelivery funds what an uninterrupted run would fund ─────────────────

  lemma {:induction false} PageStable(a: Db, b: Db, vendor: Address, n: nat, take: nat)
    requires n <= |a.order| && a.order == b.order && a.escrows.Keys == b.escrows.Keys
    requires forall id :: id in a.escrows ==> a.escrows[id].vendor == b.escrows[id].vendor
    ensures L.VendorPage(a, vendor, n, take) == L.VendorPage(b, vendor, n, take)
    decreases n
  {
    if n > 0 && take > 0 {
      PageStable(a, b, vendor, n - 1, take - 1);
      PageStable(a, b, vendor, n - 1, take);
    }
  }

  lemma {:induction false} PageOnce(db: Db, vendor: Address, n: nat, take: nat)
    requires n <= |db.order| && RowsOnce(db)
    ensures var page := L.VendorPage(db, vendor, n, take);
            && (forall id :: id in page ==> id in db.order[..n])
            && (forall i, j :: 0 <= i < j < |page| ==> page[i] != page[j])
    decreases n
  {
    if n > 0 && take > 0 {
      PageOnce(db, vendor, n - 1, take - 1);
      PageOnce(db, vendor, n - 1, take);
      assert db.order[..n] == db.order[..n - 1] + [db.order[n - 1]];
      assert db.order[n - 1] !in db.order[..n - 1];
      var rest := L.VendorPage(db, vendor, n - 1, take - 1);
      assert forall j :: 0 <= j < |rest| ==> rest[j] in rest;
    }
  }

  predicate OfVendor(db: Db, i: nat, vendor: Address)
    requires i < |db.order|
  {
    db.order[i] in db.escrows && db.escrows[db.order[i]].vendor == vendor
  }

  /** How many rows of a vendor were created from the `from`-th to before the `n`-th. */
  function Newer(db: Db, vendor: Address, from: nat, n: nat): nat
    requires from <= n <= |db.order|
    decreases n
  {
    if from == n then 0 else Newer(db, vendor, from, n - 1) + if OfVendor(db, n - 1, vendor) then 1 else 0
  }

  /** The page holds a row exactly when fewer than `take` rows of the vendor are newer. */
  lemma {:induction false} PageExactly(db: Db, vendor: Address, n: nat, take: nat, i: nat)
    requires i < n <= |db.order| && RowsOnce(db)
    ensures db.order[i] in L.VendorPage(db, vendor, n, take)
            <==> OfVendor(db, i, vendor) && Newer(db, vendor, i + 1, n) < take
    decreases n
  {
    PageOnce(db, vendor, n, take);
    if take > 0 {
      PageOnce(db, vendor, n - 1, take);
      PageOnce(db, vendor, n - 1, take - 1);
      if i < n - 1 {
        PageExactly(db, vendor, n - 1, take, i);
        PageExactly(db, vendor, n - 1, take - 1, i);
      } else {
        assert db.order[i] !in db.order[..n - 1];
      }
    }
  }

  /** The row is the payee's, waits for payment, and asks for that amount in that asset: XLM when none is named. */
  predicate PaysFor(p: L.Payment, r: Escrow) {
    && p.to == Some(r.vendor) && r.state == State.Created
    && p.amount == Some(r.amount)
    && L.SameWord(match p.asset case Some(code) => code case None => "XLM", r.currency)
  }

  /**
   * The `i`-th escrow is moved to FUNDED, with nothing else changed, exactly when the payment pays for it
   * and fewer than twenty escrows of the payee are newer.
   */
  predicate PaidRow(a: Db, b: Db, p: L.Payment, i: nat)
    requires i < |a.order| && a.order[i] in a.escrows && p.to.Some?
  {
    var id, r := a.order[i], a.escrows[a.order[i]];
    && id in b.escrows
    && b.escrows[id] == if PaysFor(p, r) && Newer(a, p.to.value, i + 1, |a.order|) < 20
                        then r.(state := State.Funded) else r
  }

  lemma FundsExactly(r: Escrow, p: L.Payment)
    ensures L.Funds(r, p) && p.to == Some(r.vendor) <==> PaysFor(p, r)
  {
    L.UpperExactly(if p.asset.Some? then p.asset.value else "XLM", r.currency);
  }

  /** What an uninterrupted delivery leaves. */
  function Uninterrupted(db: Db, p: L.Payment): Db { L.FundAll(db, L.Funded(db, p)) }

  /**
   * A payment moves exactly these escrows to FUNDED: the payee's, still CREATED, of that amount and
   * asset, and with fewer than twenty newer escrows of the same payee.
   */
  lemma PaymentFundsExactly(db: Db, p: L.Payment, i: nat)
    requires i < |db.order| && RowsOnce(db) && db.order[i] in db.escrows && !NoTo(p)
    ensures PaidRow(db, Uninterrupted(db, p), p, i)
    ensures var next := L.Step(db, L.Pay(p)).0;
            && next == Uninterrupted(db, p) && L.Step(db, L.Pay(p)).1 == L.Done
            && next.order == db.order && next.disputes == db.disputes && next.escrows.Keys == db.escrows.Keys
            && forall id :: id in db.escrows && id !in db.order ==> next.escrows[id] == db.escrows[id]
  {
    hide L.Funds, L.VendorPage;
    L.FundAllAdvances(db, L.Funded(db, p));
    L.FundAllOrder(db, L.Funded(db, p));
    PageExactly(db, p.to.value, |db.order|, L.PAGE_SIZE, i);
    FundsExactly(db.escrows[db.order[i]], p);
    PageOnce(db, p.to.value, |db.order|, L.PAGE_SIZE);
    assert db.order[..|db.order|] == db.order;
  }

  /** A funded row is no longer selected, and nothing else changes. */
  lemma {:induction false} SelectUnchanged(db: Db, page: seq<Id>, p: L.Payment, done: Id)
    requires done in db.escrows && done !in page && forall id :: id in page ==> id in db.escrows
    ensures L.Select(FundRow(db, done), page, p) == L.Select(db, page, p)
    decreases |page|
  {
    if page != [] { SelectUnchanged(db, page[1..], p, done); }
  }

  lemma {:induction false} SelectAfter(db: Db, page: seq<Id>, p: L.Payment)
    requires forall id :: id in page ==> id in db.escrows
    requires forall i, j :: 0 <= i < j < |page| ==> page[i] != page[j]
    requires L.Select(db, page, p) != []
    ensures var ids := L.Select(db, page, p); L.Select(FundRow(db, ids[0]), page, p) == ids[1..]
    decreases |page|
  {
    if L.Funds(db.escrows[page[0]], p) {
      SelectUnchanged(db, page[1..], p, page[0]);
    } else {
      SelectAfter(db, page[1..], p);
    }
  }

  /** After the first of its writes, a payment selects exactly the escrows that were still to fund. */
  lemma FundedAfter(db: Db, p: L.Payment)
    requires RowsOnce(db) && L.Funded(db, p) != []
    ensures var ids := L.Funded(db, p); L.Funded(FundRow(db, ids[0]), p) == ids[1..]
    ensures Uninterrupted(FundRow(db, L.Funded(db, p)[0]), p) == Uninterrupted(db, p)
  {
    var ids := L.Funded(db, p);
    var to := p.to.value;
    var next := FundRow(db, ids[0]);
    PageStable(db, next, to, |db.order|, L.PAGE_SIZE);
    PageOnce(db, to, |db.order|, L.PAGE_SIZE);
    SelectAfter(db, L.VendorPage(db, to, |db.order|, L.PAGE_SIZE), p);
  }

  /** Deliveries, replays and crashes of one operation, with no other writer. */
  predicate OnlyOp(s: Step, op: Op, p: L.Payment) {
    !s.Other? && (s.Receive? ==> s.op == op && s.pay == p)
  }

  /** `goal` is still what finishing the payment gives, and a loaded delivery holds what is left. */
  ghost predicate OnTheWay(w: World, op: Op, p: L.Payment, goal: Db) {
    && RowsOnce(w.db) && Uninterrupted(w.db, p) == goal
    && (forall t :: t in w.running ==> w.running[t].op == op && w.running[t].pay == p)
    && (forall t :: t in w.running && w.running[t].phase.Paying? ==> w.running[t].phase.left == L.Funded(w.db, p))
    && (w.succeeded != [] ==> w.db == goal)
    && (forall i :: 0 <= i < |w.succeeded| ==> w.succeeded[i] == op)
  }

  lemma OnlyItself(xs: seq<Op>, op: Op)
    requires forall i :: 0 <= i < |xs| ==> xs[i] == op
    ensures xs == [] || op in xs
  {
    if xs != [] { assert xs[0] == op; }
  }

  lemma FundStaysOnTheWay(w: World, s: Step, op: Op, p: L.Payment, goal: Db)
    requires Inv(w) && OnTheWay(w, op, p, goal) && s.Fund? && InProcess(w, s.task, op)
    requires w.running[s.task].phase.Paying? && w.running[s.task].phase.left != []
    ensures OnTheWay(Next(w, s), op, p, goal)
  {
    hide L.Funded, L.FundAll, Uninterrupted;
    assert Held(w, op);
    FundedAfter(w.db, p);
    var n := Next(w, s);
    forall t | t in n.running && n.running[t].phase.Paying?
      ensures t == s.task
    {
      assert InProcess(w, t, op);
    }
    OnlyItself(w.succeeded, op);
  }

  lemma SameRows(w: World, n: World, op: Op, p: L.Payment, goal: Db)
    requires OnTheWay(w, op, p, goal) && n.db == w.db
    requires forall t :: t in n.running ==> n.running[t].op == op && n.running[t].pay == p
    requires forall t :: t in n.running && n.running[t].phase.Paying? ==> n.running[t].phase.left == L.Funded(w.db, p)
    requires n.succeeded != [] ==> w.db == goal
    requires forall i :: 0 <= i < |n.succeeded| ==> n.succeeded[i] == op
    ensures OnTheWay(n, op, p, goal)
  {}

  lemma NothingLeft(db: Db, p: L.Payment)
    requires L.Funded(db, p) == []
    ensures Uninterrupted(db, p) == db
  {}

  /** The steps that write no row. */
  lemma NoWriteStaysOnTheWay(w: World, s: Step, op: Op, p: L.Payment, goal: Db)
    requires OnTheWay(w, op, p, goal) && OnlyOp(s, op, p)
    requires s.Fund? && s.task in w.running && w.running[s.task].phase.Paying? ==> w.running[s.task].phase.left == []
    ensures OnTheWay(Next(w, s), op, p, goal)
  {
    hide L.Funded, L.FundAll, Uninterrupted, RowsOnce;
    var n := Next(w, s);
    if s.Finish? && s.task in w.running && w.running[s.task].phase == Paying([]) {
      NothingLeft(w.db, p);
      assert n.succeeded == w.succeeded + [op] && w.db == goal;
    } else {
      assert n.succeeded == w.succeeded;
    }
    SameRows(w, n, op, p, goal);
  }

  lemma StepStaysOnTheWay(w: World, s: Step, op: Op, p: L.Payment, goal: Db)
    requires Inv(w) && OnTheWay(w, op, p, goal) && OnlyOp(s, op, p)
    ensures OnTheWay(Next(w, s), op, p, goal)
  {
    hide L.Funded, L.FundAll;
    if s.Fund? && s.task in w.running && w.running[s.task].phase.Paying? && w.running[s.task].phase.left != [] {
      assert InProcess(w, s.task, op);
      assert Held(w, op);
      FundStaysOnTheWay(w, s, op, p, goal);
    } else {
      NoWriteStaysOnTheWay(w, s, op, p, goal);
    }
  }

  lemma {:induction false} RunStaysOnTheWay(w: World, steps: seq<Step>, op: Op, p: L.Payment, goal: Db)
    requires Inv(w) && OnTheWay(w, op, p, goal) && forall i :: 0 <= i < |steps| ==> OnlyOp(steps[i], op, p)
    ensures OnTheWay(Run(w, steps), op, p, goal)
    decreases |steps|
  {
    hide Inv, OnTheWay, Next, OnlyOp;
    if steps != [] {
      assert OnlyOp(steps[0], op, p);
      StepKeepsInv(w, steps[0]);
      StepStaysOnTheWay(w, steps[0], op, p, goal);
      RunStaysOnTheWay(Next(w, steps[0]), steps[1..], op, p, goal);
    }
  }

  /**
   * However many deliveries of a payment fail or crash, at whichever write: when one succeeds, the
   * tables are those of a single uninterrupted delivery, and until then finishing still leads there.
   */
  lemma RedeliveryFundsExactly(w: World, steps: seq<Step>, op: Op, p: L.Payment)
    requires Empty(w) && RowsOnce(w.db) && forall i :: 0 <= i < |steps| ==> OnlyOp(steps[i], op, p)
    ensures var n := Run(w, steps);
            && (op in n.succeeded ==> n.db == Uninterrupted(w.db, p))
            && Uninterrupted(n.db, p) == Uninterrupted(w.db, p)
  {
    hide L.Funded, L.FundAll, Uninterrupted;
    RunStaysOnTheWay(w, steps, op, p, Uninterrupted(w.db, p));
  }

  function PaySteps(t: nat, n: nat): seq<Step> { if n == 0 then [Finish(t)] else [Fund(t, true)] + PaySteps(t, n - 1) }

  lemma {:induction false} PayingFinishes(w: World, t: nat, left: seq<Id>)
    requires t in w.running && w.running[t].phase == Paying(left) && forall id :: id in left ==> id in w.db.escrows
    ensures Run(w, PaySteps(t, |left|))
            == End(w.(db := L.FundAll(w.db, left), succeeded := w.succeeded + [w.running[t].op]), t)
    decreases |left|
  {
    var steps := PaySteps(t, |left|);
    var n := Next(w, steps[0]);
    if left == [] {
      assert steps[1..] == [];
      assert Run(n, []) == n;
    } else {
      assert steps[1..] == PaySteps(t, |left| - 1);
      assert n == SetPhase(w.(db := FundRow(w.db, left[0])), t, Paying(left[1..]));
      assert n.running - {t} == w.running - {t};
      PayingFinishes(n, t, left[1..]);
    }
  }

  /** A delivery that is new and meets no fault succeeds, with the tables of the uninterrupted payment. */
  lemma DeliverySucceeds(w: World, t: nat, op: Op, p: L.Payment)
    requires t !in w.running && op !in w.processed && !NoTo(p)
    ensures var steps := [Receive(t, op, p), Mark(t, true), Load(t, true)] + PaySteps(t, |L.Funded(w.db, p)|);
            var n := Run(w, steps);
            && n.db == Uninterrupted(w.db, p)
            && n.succeeded == w.succeeded + [op] && n.processed == w.processed + {op}
            && n.running == w.running && n.lost == w.lost
  {
    hide L.Funded, L.FundAll;
    var ids := L.Funded(w.db, p);
    var pays := PaySteps(t, |ids|);
    var steps := [Receive(t, op, p), Mark(t, true), Load(t, true)] + pays;
    var a := Next(w, steps[0]);
    assert a == w.(running := w.running[t := Delivery(op, p, Checked)]);
    var b := Next(a, steps[1]);
    assert b == w.(processed := w.processed + {op}, running := w.running[t := Delivery(op, p, Marked)]);
    var c := Next(b, steps[2]);
    assert c == b.(running := w.running[t := Delivery(op, p, Paying(ids))]);
    assert steps[1..][1..][1..] == pays;
    assert Run(w, steps) == Run(a, steps[1..]) == Run(b, steps[1..][1..]) == Run(c, pays);
    PayingFinishes(c, t, ids);
    assert c.running - {t} == w.running;
  }

  /**
   * A delivery without payee, or whose load fails, goes to the rollback with nothing written; the
   * rollback gives its id back when the delete succeeds and loses it when it does not.
   */
  lemma FailureExactly(w: World, t: nat, ok: bool)
    requires t in w.running
    ensures w.running[t].phase == Marked ==>
              var n, p := Next(w, Load(t, ok)), w.running[t].pay;
              && t in n.running && n == w.(running := w.running[t := n.running[t]])
              && n.running[t] == w.running[t].(phase := n.running[t].phase)
              && (n.running[t].phase == Failing <==> !ok || p.to == None || p.to == Some(""))
    ensures w.running[t].phase == Failing ==>
              var n, op := Next(w, Unmark(t, ok)), w.running[t].op;
              && n.db == w.db && n.succeeded == w.succeeded && n.running == w.running - {t}
              && n.processed == (if ok then w.processed - {op} else w.processed)
              && n.lost == if ok then w.lost else w.lost + {op}
  {
    hide L.Funded;
  }

  function FundLate(db: Db, id: Id): Db { if id in db.escrows then FundRow(db, id) else db }

  /** The writes of a payment, with what other writers do before each of them. */
  function LateRun(db: Db, ids: seq<Id>, gaps: seq<seq<L.Action>>): Db
    requires |gaps| == |ids|
    decreases |ids|
  {
    if ids == [] then db else LateRun(FundLate(L.Run(db, gaps[0]), ids[0]), ids[1..], gaps[1..])
  }

  /** None of the writes takes a row back in rank. */
  ghost predicate AllForward(db: Db, ids: seq<Id>, gaps: seq<seq<L.Action>>)
    requires |gaps| == |ids|
    decreases |ids|
  {
    ids != [] ==>
      var before := L.Run(db, gaps[0]);
      var after := FundLate(before, ids[0]);
      Advances(before, after) && AllForward(after, ids[1..], gaps[1..])
  }

  /** No selected row has passed FUNDED by the time it is written. */
  predicate NonePassed(db: Db, ids: seq<Id>, gaps: seq<seq<L.Action>>)
    requires |gaps| == |ids|
    decreases |ids|
  {
    ids != [] ==>
      var before := L.Run(db, gaps[0]);
      && (ids[0] in before.escrows ==> Rank(before.escrows[ids[0]].state) <= Rank(State.Funded))
      && NonePassed(FundLate(before, ids[0]), ids[1..], gaps[1..])
  }

  lemma FundLateAdvances(db: Db, id: Id)
    ensures Advances(db, FundLate(db, id)) <==>
            (id in db.escrows ==> Rank(db.escrows[id].state) <= Rank(State.Funded))
  {
    if id in db.escrows {
      var row := db.escrows[id].(state := State.Funded);
      if Rank(db.escrows[id].state) <= Rank(State.Funded) { PutRowAdvances(db, id, row); }
      else { assert !RowAdvances(db.escrows[id], FundLate(db, id).escrows[id]); }
    }
  }

  /**
   * `updateState` does not look at the row again. With any steps of other writers before every write,
   * no write takes a row back in rank exactly when no selected row has passed FUNDED by the time it is
   * written; then the whole only moves the tables forward.
   */
  lemma {:induction false} LateWritesExactly(db: Db, ids: seq<Id>, gaps: seq<seq<L.Action>>)
    requires |gaps| == |ids|
    ensures AllForward(db, ids, gaps) <==> NonePassed(db, ids, gaps)
    ensures AllForward(db, ids, gaps) ==> Advances(db, LateRun(db, ids, gaps))
    decreases |ids|
  {
    hide L.Run, FundLate, Advances;
    if ids == [] {
      AdvancesSelf(db);
    } else {
      var before := L.Run(db, gaps[0]);
      var after := FundLate(before, ids[0]);
      L.RunAdvances(db, gaps[0]);
      FundLateAdvances(before, ids[0]);
      LateWritesExactly(after, ids[1..], gaps[1..]);
      if AllForward(db, ids, gaps) {
        AdvancesTransitive(db, before, after);
        AdvancesTransitive(db, after, LateRun(db, ids, gaps));
      }
    }
  }

  lemma {:induction false} FundAllSets(db: Db, ids: seq<Id>, id: Id)
    requires forall i :: i in ids ==> i in db.escrows
    requires id in db.escrows && (id in ids || db.escrows[id].state.Funded?)
    ensures var next := L.FundAll(db, ids); id in next.escrows && next.escrows[id].state.Funded?
    decreases |ids|
  {
    if ids != [] { FundAllSets(FundRow(db, ids[0]), ids[1..], id); }
  }

  /** A chain event that lands between the read and the write is undone: RELEASED becomes FUNDED. */
  lemma LateWriteRegresses()
    ensures var db, p := L.OneEscrow(), L.Payment(Some("V"), Some(1), None);
            var ids, late := L.Funded(db, p), L.Run(db, [L.Move(Released)]);
            && 0 in late.escrows && late.escrows[0].state.Released?
            && (forall id :: id in ids ==> id in late.escrows)
            && 0 in L.FundAll(late, ids).escrows && L.FundAll(late, ids).escrows[0].state.Funded?
  {
    hide L.Step, L.Move, L.Run;
    var db, p := L.OneEscrow(), L.Payment(Some("V"), Some(1), None);
    L.RunOne(db, L.Move(Released));
    L.MoveTakes(db, Created, Released);
    var late := L.Run(db, [L.Move(Released)]);
    assert L.VendorPage(db, "V", 1, L.PAGE_SIZE) == [0] by { assert L.VendorPage(db, "V", 0, 19) == []; }
    var ids := L.Funded(db, p);
    assert ids == [0];
    FundAllSets(late, ids, 0);
  }

  // ── One delivery by itself ────────────────────────────────────────────────

  lemma {:induction false} SelectSnoc(db: Db, page: seq<Id>, p: L.Payment, last: Id)
    requires last in db.escrows && forall id :: id in page ==> id in db.escrows
    ensures L.Select(db, page + [last], p)
         == L.Select(db, page, p) + if L.Funds(db.escrows[last], p) then [last] else []
    decreases |page|
  {
    if page == [] {
      assert page + [last] == [last];
      assert L.Select(db, [last][1..], p) == [];
    } else {
      assert (page + [last])[1..] == page[1..] + [last];
      SelectSnoc(db, page[1..], p, last);
    }
  }

  lemma {:induction false} SelectPrefix(db: Db, page: seq<Id>, p: L.Payment, k: nat)
    requires k <= |page| && forall id :: id in page ==> id in db.escrows
    ensures L.Select(db, page[..k], p) <= L.Select(db, page, p)
    decreases |page|
  {
    if k > 0 {
      assert page[..k][1..] == page[1..][..k - 1];
      SelectPrefix(db, page[1..], p, k - 1);
    }
  }

  lemma {:induction false} FundAllSnoc(db: Db, ids: seq<Id>, last: Id)
    requires last in db.escrows && forall id :: id in ids ==> id in db.escrows
    ensures last in L.FundAll(db, ids).escrows
    ensures L.FundAll(db, ids + [last]) == FundRow(L.FundAll(db, ids), last)
    decreases |ids|
  {
    if ids == [] {
      assert ids + [last] == [last];
    } else {
      assert (ids + [last])[1..] == ids[1..] + [last];
      FundAllSnoc(FundRow(db, ids[0]), ids[1..], last);
    }
  }

  /** What the loop does with one row of the page. */
  lemma NextSelected(db: Db, page: seq<Id>, p: L.Payment, i: nat, done: nat)
    requires i < |page| && forall id :: id in page ==> id in db.escrows
    requires var ids := L.Select(db, page, p); done <= |ids| && ids[..done] == L.Select(db, page[..i], p)
    ensures var ids, id := L.Select(db, page, p), page[i];
            if L.Funds(db.escrows[id], p) then
              && done < |ids| && ids[..done + 1] == L.Select(db, page[..i + 1], p)
              && id in L.FundAll(db, ids[..done]).escrows
              && L.FundAll(db, ids[..done + 1]) == FundRow(L.FundAll(db, ids[..done]), id)
            else ids[..done] == L.Select(db, page[..i + 1], p)
  {
    hide L.Select, L.FundAll, L.Funds, FundRow;
    var ids := L.Select(db, page, p);
    assert page[..i + 1] == page[..i] + [page[i]];
    SelectSnoc(db, page[..i], p, page[i]);
    SelectPrefix(db, page, p, i + 1);
    if L.Funds(db.escrows[page[i]], p) {
      assert ids[..done + 1] == ids[..done] + [page[i]];
      FundAllSnoc(db, ids[..done], page[i]);
    }
  }

  lemma FundedIsSelect(db: Db, p: L.Payment)
    requires !NoTo(p)
    ensures L.Funded(db, p) == L.Select(db, L.VendorPage(db, p.to.value, |db.order|, L.PAGE_SIZE), p)
  {}

  lemma NothingWritten(db: Db)
    ensures L.FundAll(db, []) == db
    ensures forall p :: L.Select(db, [], p) == []
  {}

  datatype Outcome = Received | Duplicate | Thrown

  class StellarWebhookService {
    var db: Db
    var processed: set<Op>

    constructor (db: Db)
      ensures this.db == db && processed == {}
    {
      this.db := db;
      processed := {};
    }

    /**
     * `budget` is how many row writes succeed before one throws. The rows written are the first ones
     * of what the payment funds, and all of them when it returns normally.
     */
    method HandlePayment(p: L.Payment, budget: nat) returns (ok: bool, written: nat)
      modifies this`db
      ensures written <= |L.Funded(old(db), p)| && written <= budget
      ensures db == L.FundAll(old(db), L.Funded(old(db), p)[..written])
      ensures ok <==> !NoTo(p) && |L.Funded(old(db), p)| <= budget
      ensures ok ==> written == |L.Funded(old(db), p)|
      ensures p.to == None || p.to == Some("") ==> !ok && db == old(db)
      ensures ok && RowsOnce(old(db)) ==>
                && p.to.Some?
                && forall i: nat :: i < |old(db).order| && old(db).order[i] in old(db).escrows ==>
                                      PaidRow(old(db), db, p, i)
    {
      hide L.Funded, L.Select, L.FundAll, L.VendorPage, L.Funds, FundRow;
      written := 0;
      NothingWritten(db);
      if NoTo(p) { return false, 0; }
      var snapshot := db;
      var page := L.VendorPage(snapshot, p.to.value, |snapshot.order|, L.PAGE_SIZE);
      ghost var ids := L.Select(snapshot, page, p);
      FundedIsSelect(snapshot, p);
      for i := 0 to |page|
        invariant written <= budget && snapshot == old(db)
        invariant written <= |ids| && ids[..written] == L.Select(snapshot, page[..i], p)
        invariant db == L.FundAll(snapshot, ids[..written])
      {
        NextSelected(snapshot, page, p, i, written);
        if L.Funds(snapshot.escrows[page[i]], p) {
          if written == budget { return false, written; }
          db := FundRow(db, page[i]);
          written := written + 1;
        }
      }
      assert page[..|page|] == page;
      ok := true;
      assert ids[..written] == ids && db == Uninterrupted(snapshot, p);
      if RowsOnce(snapshot) {
        forall i: nat | i < |snapshot.order| && snapshot.order[i] in snapshot.escrows
          ensures PaidRow(snapshot, db, p, i)
        {
          PaymentFundsExactly(snapshot, p, i);
        }
      }
    }

    /**
     * A signed delivery, or an admin replay, that nothing overlaps. A failure gives the id back, so
     * only the rows already written remain of it.
     */
    method HandleEvent(op: Op, p: L.Payment, budget: nat, unmarkOk: bool) returns (outcome: Outcome)
      modifies this
      ensures outcome.Duplicate? <==> op in old(processed)
      ensures outcome.Duplicate? ==> db == old(db) && processed == old(processed)
      ensures outcome.Received? ==> db == Uninterrupted(old(db), p) && processed == old(processed) + {op}
      ensures outcome.Thrown? ==>
                && (NoTo(p) || budget < |L.Funded(old(db), p)|)
                && processed == (if unmarkOk then old(processed) else old(processed) + {op})
                && exists k :: 0 <= k <= |L.Funded(old(db), p)| && db == L.FundAll(old(db), L.Funded(old(db), p)[..k])
    {
      if op in processed { return Duplicate; }
      processed := processed + {op};
      var ok, written := HandlePayment(p, budget);
      if ok {
        assert L.Funded(old(db), p)[..written] == L.Funded(old(db), p);
        return Received;
      }
      if unmarkOk { processed := processed - {op}; }
      return Thrown;
    }
  }
}
