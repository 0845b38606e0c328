/** What holds of the poller over whole runs: no event is passed over, none takes effect twice, none blocks for ever. */
module PollerRuns {
  import opened EscrowTables
  import opened ChainSync
  import opened SorobanPoller
  import L = Lifecycle

  /** One thing that happens: a poll cycle, ledgers closing, a process restart, another writer's step. */
  datatype Tick = Poll(cycle: Cycle) | Grow(next: Chain) | Restart | Act(action: L.Action)

  datatype Sys = Sys(chain: Chain, poller: Poller)

  predicate ValidToken(s: Sys) { s.poller.cursor.Token? ==> s.poller.cursor.index < |s.chain.log| }

  function Next(s: Sys, t: Tick): Sys {
    match t
    case Poll(c) =>
      if ValidToken(s) then s.(poller := PollCycle(s.poller, s.chain.log, c)) else s
    case Grow(next) => s.(chain := next)
    case Restart => s.(poller := s.poller.(retries := map[]))
    case Act(a) => s.(poller := s.poller.(db := L.Step(s.poller.db, a).0))
  }

  function Run(s: Sys, ticks: seq<Tick>): Sys
    decreases |ticks|
  {
    if ticks == [] then s else Run(Next(s, ticks[0]), ticks[1..])
  }

  /** How far the latest ledger may be ahead of the ledger the fetch saw. */
  const MAX_LEDGERS_IN_CYCLE: nat := START_LEDGER_MARGIN + 1

  /** What happens within a cycle is the work of other writers. */
  predicate OthersOnly(c: Cycle) { forall i, a | i in c.others && a in c.others[i] :: !a.Chain? }

  /** The node's answers within one cycle are consistent, and not too many ledgers close meanwhile. */
  ghost predicate Legal(s: Sys, t: Tick) {
    match t
    case Poll(c) =>
      && (c.latest.Some? ==> s.chain.closed <= c.latest.value <= s.chain.closed + 11)
      && OthersOnly(c)
    case Grow(next) => Grows(s.chain, next)
    case Restart => true
    case Act(a) => !a.Chain?
  }

  ghost predicate LegalRun(s: Sys, ticks: seq<Tick>)
    decreases |ticks|
  {
    ticks != [] ==> Legal(s, ticks[0]) && LegalRun(Next(s, ticks[0]), ticks[1..])
  }

  lemma OneTick(s: Sys, t: Tick)
    ensures Run(s, [t]) == Next(s, t) && (LegalRun(s, [t]) <==> Legal(s, t))
  {
    hide Next, Legal;
    assert [t][1..] == [];
  }

  lemma TwoTicks(s: Sys, t: Tick, u: Tick)
    ensures Run(s, [t, u]) == Next(Next(s, t), u)
    ensures LegalRun(s, [t, u]) <==> Legal(s, t) && Legal(Next(s, t), u)
  {
    hide Next, Legal;
    assert [t, u][1..] == [u];
    OneTick(Next(s, t), u);
  }

  // ── No gap ────────────────────────────────────────────────────────────────

  /** The event has had its effect on the tables, or was sent to the dead-letter queue. */
  predicate Accounted(p: Poller, raw: RawEvent) {
    raw.id in p.dead || (Dispatch(p.db, raw).Some? && Settled(p.db, Dispatch(p.db, raw).value))
  }

  ghost predicate Forward(p: Poller, q: Poller) {
    Advances(p.db, q.db) && forall id :: id in p.dead ==> id in q.dead
  }

  lemma AccountedStable(p: Poller, q: Poller, raw: RawEvent)
    requires Forward(p, q) && Accounted(p, raw)
    ensures Accounted(q, raw)
  {
    DispatchStable(p.db, q.db, raw);
    if raw.id !in p.dead { SettledStable(p.db, q.db, Dispatch(p.db, raw).value); }
  }

  lemma ProcessAccounts(p: Poller, raw: RawEvent, fault: Fault, now: Time)
    ensures Forward(p, Process(p, raw, fault, now).0)
    ensures Process(p, raw, fault, now).1 ==> Accounted(Process(p, raw, fault, now).0, raw)
  {
    var e := Dispatch(p.db, raw);
    if e.Some? {
      SyncAdvances(p.db, e.value, now);
      SyncSettles(p.db, e.value, now);
      DispatchStable(p.db, Sync(p.db, e.value, now).0, raw);
    }
  }

  lemma MeanwhileForward(p: Poller, c: Cycle, i: nat)
    ensures Forward(p, Meanwhile(p, c, i))
  {
    L.RunAdvances(p.db, OthersAt(c, i));
  }

  lemma ForwardTransitive(p: Poller, q: Poller, r: Poller)
    requires Forward(p, q) && Forward(q, r)
    ensures Forward(p, r)
  {
    AdvancesTransitive(p.db, q.db, r.db);
  }

  lemma ForwardSelf(p: Poller)
    ensures Forward(p, p)
  {}

  lemma {:induction false} BatchAccounts(p: Poller, log: seq<RawEvent>, i: nat, end: nat, c: Cycle)
    requires i <= end <= |log|
    ensures var (q, stop) := Batch(p, log, i, end, c);
            Forward(p, q) && forall k :: i <= k < stop ==> Accounted(q, log[k])
    decreases end - i
  {
    hide Process, Accounted, Forward;
    if i == end {
      ForwardSelf(p);
    } else {
      var m := Meanwhile(p, c, i);
      var (next, ok) := Process(m, log[i], FaultAt(c, i), c.now);
      MeanwhileForward(p, c, i);
      ProcessAccounts(m, log[i], FaultAt(c, i), c.now);
      ForwardTransitive(p, m, next);
      if ok {
        BatchAccounts(next, log, i + 1, end, c);
        var q := Batch(p, log, i, end, c).0;
        ForwardTransitive(p, next, q);
        AccountedStable(next, q, log[i]);
      }
    }
  }

  /** The events of the first `upto` that lie at or after ledger `n` are accounted for. */
  ghost predicate Covered(p: Poller, log: seq<RawEvent>, upto: nat, n: nat)
    requires upto <= |log|
  {
    forall k :: 0 <= k < upto && log[k].ledger >= n ==> Accounted(p, log[k])
  }

  /** Every event from ledger `n` on that the persisted cursor has passed is accounted for. */
  ghost predicate NoGap(s: Sys, n: nat) {
    && ValidChain(s.chain)
    && ValidToken(s)
    && (s.poller.cursor.Ledger? ==> s.poller.cursor.n <= s.chain.closed + 1 || s.poller.cursor.n <= n)
    && Covered(s.poller, s.chain.log, Position(s.chain.log, s.poller.cursor), n)
  }

  lemma CoveredStable(p: Poller, q: Poller, log: seq<RawEvent>, upto: nat, n: nat)
    requires upto <= |log| && Covered(p, log, upto, n) && Forward(p, q)
    ensures Covered(q, log, upto, n)
  {
    hide Accounted, Forward;
    forall k | 0 <= k < upto && log[k].ledger >= n ensures Accounted(q, log[k]) { AccountedStable(p, q, log[k]); }
  }

  /** A cycle without a persisted cursor starts at ledger `n` at the latest. */
  predicate StartsBy(s: Sys, t: Tick, n: nat) {
    t.Poll? && s.poller.cursor.NoCursor? && StartLedger(t.cycle).Some? ==> StartLedger(t.cycle).value <= n
  }

  lemma CoveredAt(p: Poller, log: seq<RawEvent>, cursor: Cursor, n: nat)
    requires (p.cursor.Token? ==> p.cursor.index < |log|) && Covered(p, log, Position(log, p.cursor), n)
    requires cursor == p.cursor || (cursor.Ledger? && cursor.n <= n)
    ensures Covered(p, log, Position(log, cursor), n)
  {}

  lemma BatchCovers(p: Poller, log: seq<RawEvent>, i: nat, end: nat, c: Cycle, n: nat)
    requires i <= end <= |log| && Covered(p, log, i, n)
    ensures var (q, stop) := Batch(p, log, i, end, c); Covered(q, log, stop, n) && Forward(p, q)
  {
    hide Batch, Accounted, Forward;
    BatchAccounts(p, log, i, end, c);
    CoveredStable(p, Batch(p, log, i, end, c).0, log, i, n);
  }

  lemma LessCovered(p: Poller, log: seq<RawEvent>, i: nat, j: nat, n: nat)
    requires j <= i <= |log| && Covered(p, log, i, n)
    ensures Covered(p, log, j, n)
  {}

  lemma SameAccounts(p: Poller, q: Poller, raw: RawEvent)
    requires p.db == q.db && p.dead == q.dead
    ensures Accounted(p, raw) <==> Accounted(q, raw)
  {}

  lemma SameCovered(p: Poller, q: Poller, log: seq<RawEvent>, upto: nat, n: nat)
    requires p.db == q.db && p.dead == q.dead && upto <= |log| && Covered(p, log, upto, n)
    ensures Covered(q, log, upto, n)
  {
    forall k | 0 <= k < upto && log[k].ledger >= n ensures Accounted(q, log[k]) { SameAccounts(p, q, log[k]); }
  }

  /** The part of a cycle after the cursor is at hand. */
  lemma PageKeepsNoGap(s: Sys, c: Cycle, n: nat, b: Poller, cursor: Cursor)
    requires ValidChain(s.chain) && Legal(s, Poll(c)) && NoGap(s.(poller := b), n) && !cursor.NoCursor?
    requires cursor == b.cursor || (cursor.Ledger? && cursor.n <= n)
    ensures NoGap(s.(poller := CycleFrom(b, cursor, s.chain.log, c)), n)
  {
    hide Process, Batch, Covered, ValidChain, FirstAt, Forward;
    var log := s.chain.log;
    var q := CycleFrom(b, cursor, log, c);
    var start := Position(log, cursor);
    var end := Min(start + PAGE_LIMIT, |log|);
    CoveredAt(b, log, cursor, n);
    if c.fetchOk && start < end {
      var (r, stop) := Batch(b, log, start, end, c);
      BatchCovers(b, log, start, end, c, n);
      CoveredStable(b, r, log, Position(log, b.cursor), n);
      SameCovered(r, q, log, stop, n);
      SameCovered(r, q, log, Position(log, b.cursor), n);
    } else {
      SameCovered(b, q, log, start, n);
      SameCovered(b, q, log, Position(log, b.cursor), n);
      if q.cursor != b.cursor { LessCovered(q, log, start, Position(log, q.cursor), n); }
    }
  }

  lemma CycleKeepsNoGap(s: Sys, c: Cycle, n: nat)
    requires NoGap(s, n) && Legal(s, Poll(c)) && StartsBy(s, Poll(c), n)
    ensures NoGap(Next(s, Poll(c)), n)
  {
    hide Process, Settled, Dispatch;
    var p, log := s.poller, s.chain.log;
    if !p.cursor.NoCursor? || StartLedger(c).Some? {
      var cursor := if p.cursor.NoCursor? then Ledger(StartLedger(c).value) else p.cursor;
      var b := if p.cursor.NoCursor? && c.firstWriteOk then p.(cursor := cursor) else p;
      assert Next(s, Poll(c)).poller == CycleFrom(b, cursor, log, c);
      PageKeepsNoGap(s, c, n, b, cursor);
    }
  }

  /** Ledgers that close after a cursor was chosen do not move its reading position. */
  lemma PositionStable(c: Chain, d: Chain, cursor: Cursor)
    requires ValidChain(c) && Grows(c, d)
    requires cursor.Token? ==> cursor.index < |c.log|
    requires cursor.Ledger? ==> cursor.n <= c.closed + 1
    ensures Position(d.log, cursor) == Position(c.log, cursor)
  {
    if cursor.Ledger? {
      var i, j := FirstAt(c.log, cursor.n), FirstAt(d.log, cursor.n);
      if i < |c.log| { assert d.log[i] == c.log[i]; }
      if j < |c.log| { assert c.log[j] == d.log[j]; }
    }
  }

  /** Forward looks at tables and dead letters, not at the cursor. */
  lemma SameForward(p: Poller, q: Poller, r: Poller)
    requires Forward(p, q) && r.db == q.db && r.dead == q.dead
    ensures Forward(p, r)
  {}

  lemma BatchForward(p: Poller, q: Poller, log: seq<RawEvent>, i: nat, end: nat, c: Cycle)
    requires i <= end <= |log| && q.db == p.db && q.dead == p.dead
    ensures Forward(p, Batch(q, log, i, end, c).0)
  {
    hide Batch, Accounted;
    BatchAccounts(q, log, i, end, c);
  }

  lemma PollForward(p: Poller, log: seq<RawEvent>, c: Cycle)
    requires p.cursor.Token? ==> p.cursor.index < |log|
    ensures Forward(p, PollCycle(p, log, c))
  {
    hide Batch, Forward;
    ForwardSelf(p);
    var r := PollCycle(p, log, c);
    if !p.cursor.NoCursor? || StartLedger(c).Some? {
      var cursor := if p.cursor.NoCursor? then Ledger(StartLedger(c).value) else p.cursor;
      var q := if p.cursor.NoCursor? && c.firstWriteOk then p.(cursor := cursor) else p;
      var start := Position(log, cursor);
      var end := Min(start + PAGE_LIMIT, |log|);
      BatchForward(p, q, log, start, end, c);
      SameForward(p, p, q);
      if c.fetchOk && start < end {
        SameForward(p, Batch(q, log, start, end, c).0, r);
      } else {
        SameForward(p, q, r);
      }
    }
  }

  lemma TickForward(s: Sys, t: Tick)
    ensures Forward(s.poller, Next(s, t).poller)
  {
    match t {
      case Poll(c) =>
        if ValidToken(s) { PollForward(s.poller, s.chain.log, c); }
      case Act(a) => L.StepAdvances(s.poller.db, a);
      case _ =>
    }
  }

  lemma GrowKeepsNoGap(s: Sys, next: Chain, n: nat)
    requires NoGap(s, n) && Grows(s.chain, next)
    ensures NoGap(s.(chain := next), n)
  {
    hide Accounted;
    var cursor, log := s.poller.cursor, s.chain.log;
    if !cursor.Ledger? || cursor.n <= s.chain.closed + 1 {
      PositionStable(s.chain, next, cursor);
      assert forall k :: 0 <= k < |log| ==> next.log[k] == log[k];
    }
  }

  lemma TickKeepsNoGap(s: Sys, t: Tick, n: nat)
    requires NoGap(s, n) && Legal(s, t) && StartsBy(s, t, n)
    ensures NoGap(Next(s, t), n)
  {
    if t.Poll? {
      CycleKeepsNoGap(s, t.cycle, n);
    } else if t.Grow? {
      GrowKeepsNoGap(s, t.next, n);
    } else {
      TickForward(s, t);
      CoveredStable(s.poller, Next(s, t).poller, s.chain.log, Position(s.chain.log, s.poller.cursor), n);
    }
  }

  ghost predicate StartRun(s: Sys, ticks: seq<Tick>, n: nat)
    decreases |ticks|
  {
    ticks != [] ==> StartsBy(s, ticks[0], n) && StartRun(Next(s, ticks[0]), ticks[1..], n)
  }

  /**
   * Whatever fails and whatever other writers do, between cycles or within them, the persisted
   * cursor never passes an event from ledger `n` on that has not taken effect or been dead-lettered.
   */
  lemma {:induction false} NeverAGap(s: Sys, ticks: seq<Tick>, n: nat)
    requires NoGap(s, n) && LegalRun(s, ticks) && StartRun(s, ticks, n)
    ensures NoGap(Run(s, ticks), n)
    decreases |ticks|
  {
    hide NoGap, Next, Legal, StartsBy;
    if ticks != [] {
      TickKeepsNoGap(s, ticks[0], n);
      NeverAGap(Next(s, ticks[0]), ticks[1..], n);
    }
  }

  // ── The first cycle ───────────────────────────────────────────────────────

  /** The configured start ledger, zero when there is none, does not change while the system runs. */
  predicate SameConfig(ticks: seq<Tick>, configured: nat) {
    forall i :: 0 <= i < |ticks| && ticks[i].Poll? ==> ticks[i].cycle.configured == configured
  }

  ghost predicate NoGapFollows(s: Sys, configured: nat, n: nat) {
    forall ticks :: LegalRun(s, ticks) && SameConfig(ticks, configured) ==> NoGap(Run(s, ticks), n)
  }

  /** Once a cursor is persisted one always is. */
  lemma CursorStays(s: Sys, t: Tick)
    requires !s.poller.cursor.NoCursor?
    ensures !Next(s, t).poller.cursor.NoCursor?
  {}

  lemma {:induction false} StartsByConfig(s: Sys, ticks: seq<Tick>, configured: nat, n: nat)
    requires SameConfig(ticks, configured)
    requires !s.poller.cursor.NoCursor? || configured == n != 0
    ensures StartRun(s, ticks, n)
    decreases |ticks|
  {
    if ticks != [] {
      if !s.poller.cursor.NoCursor? { CursorStays(s, ticks[0]); }
      StartsByConfig(Next(s, ticks[0]), ticks[1..], configured, n);
    }
  }

  function IdsOf(log: seq<RawEvent>): seq<string> { seq(|log|, i requires 0 <= i < |log| => log[i].id) }

  /** A text longer than every given one. */
  function FreshText(texts: seq<string>): string {
    if texts == [] then "" else FreshText(texts[1..]) + texts[0] + "x"
  }

  lemma {:induction false} FreshTextIsFresh(texts: seq<string>)
    ensures forall i :: 0 <= i < |texts| ==> |texts[i]| < |FreshText(texts)|
  {
    if texts != [] {
      FreshTextIsFresh(texts[1..]);
      forall i | 0 <= i < |texts| ensures |texts[i]| < |FreshText(texts)| {
        if i > 0 { assert texts[i] == texts[1..][i - 1]; }
      }
    }
  }

  lemma MissedIsNew(s: Sys, missed: RawEvent)
    requires missed.id == FreshText(IdsOf(s.chain.log) + s.poller.dead)
    ensures missed.id !in s.poller.dead && forall i :: 0 <= i < |s.chain.log| ==> s.chain.log[i].id != missed.id
  {
    var log, dead := s.chain.log, s.poller.dead;
    FreshTextIsFresh(IdsOf(log) + dead);
    assert forall i :: 0 <= i < |dead| ==> dead[i] == (IdsOf(log) + dead)[|log| + i];
    assert forall i :: 0 <= i < |log| ==> log[i].id == (IdsOf(log) + dead)[i];
  }

  /** An undecodable event that is neither dead-lettered nor ahead of the cursor is a gap. */
  lemma PassedUnread(s: Sys, k: nat, n: nat)
    requires k < |s.chain.log| && s.chain.log[k].parsed.None? && s.chain.log[k].id !in s.poller.dead
    requires s.poller.cursor.Ledger? && n <= s.chain.log[k].ledger < s.poller.cursor.n && ValidChain(s.chain)
    ensures !NoGap(s, n)
  {
    assert Position(s.chain.log, s.poller.cursor) > k;
    assert !Accounted(s.poller, s.chain.log[k]);
  }

  /** Without a cursor and a configured ledger, the next cycle can start behind an event it never reads. */
  lemma LaterStartLeavesAGap(s: Sys, n: nat)
    requires ValidChain(s.chain) && s.poller.cursor.NoCursor?
    ensures !NoGapFollows(s, 0, n)
  {
    hide NoGap;
    var log := s.chain.log;
    var at := if n <= s.chain.closed then s.chain.closed + 1 else n;
    var missed := RawEvent(FreshText(IdsOf(log) + s.poller.dead), at, None);
    var grown := Chain(log + [missed], at + MAX_LEDGERS_IN_CYCLE);
    var late := Cycle(0, Some(at + MAX_LEDGERS_IN_CYCLE), true, false, map[], map[], None, true, 0);
    MissedIsNew(s, missed);
    assert Grows(s.chain, grown);
    var ticks := [Grow(grown), Poll(late)];
    var mid := Next(s, Grow(grown));
    var last := Next(mid, Poll(late));
    TwoTicks(s, Grow(grown), Poll(late));
    PassedUnread(last, |log|, n);
  }

  /**
   * A cycle without a cursor stores one: the start ledger at once, or after the fetch the place of the
   * last event handled or, when there is none to read, the place behind the latest ledger.
   */
  predicate StoresCursor(s: Sys, c: Cycle)
    requires StartLedger(c).Some?
  {
    || c.firstWriteOk
    || (c.fetchOk && c.writeOk
        && var log, start := s.chain.log, Position(s.chain.log, Ledger(StartLedger(c).value));
           if start == |log| then c.latest.Some? && c.latest.value != 0
           else Process(Meanwhile(s.poller, c, start), log[start], FaultAt(c, start), c.now).1)
  }

  lemma StoresCursorExactly(s: Sys, c: Cycle)
    requires s.poller.cursor.NoCursor? && StartLedger(c).Some?
    ensures Next(s, Poll(c)).poller.cursor.NoCursor? <==> !StoresCursor(s, c)
  {
    hide Process, L.Run;
    var log, p := s.chain.log, s.poller;
    var start := Position(log, Ledger(StartLedger(c).value));
    if start < |log| {
      var end := Min(start + PAGE_LIMIT, |log|);
      var stop := Batch(p, log, start, end, c).1;
      assert stop > start <==> Process(Meanwhile(p, c, start), log[start], FaultAt(c, start), c.now).1;
    }
  }

  /**
   * A poller that has never run resolves start ledger `n` in its first cycle. No event from `n` on is
   * ever passed over exactly when `n` was configured or that cycle stores a cursor.
   */
  lemma FirstCycleExactly(s: Sys, c: Cycle)
    requires ValidChain(s.chain) && s.poller.cursor.NoCursor? && Legal(s, Poll(c)) && StartLedger(c).Some?
    ensures NoGapFollows(Next(s, Poll(c)), c.configured, StartLedger(c).value)
            <==> c.configured != 0 || StoresCursor(s, c)
  {
    var first, n := Next(s, Poll(c)), StartLedger(c).value;
    CycleKeepsNoGap(s, c, n);
    StoresCursorExactly(s, c);
    hide Next;
    if c.configured != 0 || StoresCursor(s, c) {
      forall ticks | LegalRun(first, ticks) && SameConfig(ticks, c.configured) ensures NoGap(Run(first, ticks), n) {
        StartsByConfig(first, ticks, c.configured, n);
        NeverAGap(first, ticks, n);
      }
    } else {
      LaterStartLeavesAGap(first, n);
    }
  }

  /**
   * The quiet-cycle reset is safe for every continuation of the chain exactly when at most
   * eleven ledgers closed between the fetch and the latest-ledger call.
   */
  lemma QuietResetExactly(c: Chain, latest: nat)
    requires ValidChain(c)
    ensures (forall d :: Grows(c, d) ==> Position(d.log, Ledger(Behind(latest))) <= |c.log|)
            <==> latest <= c.closed + 11
  {
    if latest <= c.closed + MAX_LEDGERS_IN_CYCLE {
      forall d | Grows(c, d) ensures Position(d.log, Ledger(Behind(latest))) <= |c.log| {
        PositionStable(c, d, Ledger(Behind(latest)));
      }
    } else {
      var extra := RawEvent(FreshText(IdsOf(c.log)), c.closed + 1, None);
      var d := Chain(c.log + [extra], c.closed + 1);
      FreshTextIsFresh(IdsOf(c.log));
      assert forall i :: 0 <= i < |c.log| ==> c.log[i].id == IdsOf(c.log)[i];
      assert Grows(c, d);
      assert forall k :: 0 <= k < |d.log| ==> d.log[k].ledger < Behind(latest);
    }
  }

  // ── A start ledger inside the margin ──────────────────────────────────────

  /** The persisted cursor reads from the first event at ledger `n` or later. */
  ghost predicate ReadsFrom(s: Sys, n: nat) {
    && ValidChain(s.chain) && ValidToken(s) && !s.poller.cursor.NoCursor?
    && n <= Behind(s.chain.closed)
    && (s.poller.cursor.Ledger? ==> n <= s.poller.cursor.n <= s.chain.closed + 1)
    && FirstAt(s.chain.log, n) <= Position(s.chain.log, s.poller.cursor)
  }

  ghost predicate StartedAt(s: Sys, n: nat, closed: nat) {
    ValidChain(s.chain) && s.chain.closed == closed && s.poller.cursor == Ledger(n)
  }

  /** In every run from start ledger `n`, persisted when `closed` was the last ledger, nothing before `n` is read. */
  ghost predicate NeverReadsBefore(n: nat, closed: nat) {
    forall s: Sys, ticks: seq<Tick> :: StartedAt(s, n, closed) && LegalRun(s, ticks) ==>
      var r := Run(s, ticks); ValidToken(r) && FirstAt(r.chain.log, n) <= Position(r.chain.log, r.poller.cursor)
  }

  lemma {:induction false} FirstAtMonotone(log: seq<RawEvent>, m: nat, n: nat, from: nat)
    requires m <= n && from <= |log|
    ensures FirstAt(log, m, from) <= FirstAt(log, n, from)
    decreases |log| - from
  {
    if from < |log| { FirstAtMonotone(log, m, n, from + 1); }
  }

  lemma TickKeepsReadsFrom(s: Sys, t: Tick, n: nat)
    requires ReadsFrom(s, n) && Legal(s, t)
    ensures ReadsFrom(Next(s, t), n)
  {
    hide Batch, L.Step, L.Run;
    match t {
      case Poll(c) =>
        if c.latest.Some? { FirstAtMonotone(s.chain.log, n, Behind(c.latest.value), 0); }
      case Grow(next) =>
        PositionStable(s.chain, next, s.poller.cursor);
        PositionStable(s.chain, next, Ledger(n));
      case _ =>
    }
  }

  lemma {:induction false} RunKeepsReadsFrom(s: Sys, ticks: seq<Tick>, n: nat)
    requires ReadsFrom(s, n) && LegalRun(s, ticks)
    ensures ReadsFrom(Run(s, ticks), n)
    decreases |ticks|
  {
    hide ReadsFrom, Next, Legal;
    if ticks != [] {
      TickKeepsReadsFrom(s, ticks[0], n);
      RunKeepsReadsFrom(Next(s, ticks[0]), ticks[1..], n);
    }
  }

  /** A node that answers everything, with `latest` as its last ledger. */
  function Answering(latest: nat): Cycle {
    Cycle(0, Some(latest), true, true, map[], map[], Some(latest), true, 0)
  }

  lemma QuietResetUndoesALateStart(n: nat, closed: nat)
    requires n > 1 && n + 10 > closed
    ensures !NeverReadsBefore(n, closed)
  {
    var early := RawEvent("e", Behind(closed), None);
    var poller := Poller(Ledger(n), map[], Db(map[], [], []), []);
    var latest := if closed == 0 then 1 else closed;
    var quiet := Poll(Answering(latest));
    var grown := Chain([early], 1);
    var s := Sys(Chain(if closed == 0 then [] else [early], closed), poller);
    var mid := Next(s, quiet);
    assert mid.poller.cursor == Ledger(Behind(closed)) by {
      assert Position(s.chain.log, Ledger(n)) == |s.chain.log|;
    }
    OneTick(s, quiet);
    if closed == 0 {
      TwoTicks(s, quiet, Grow(grown));
      assert Position(grown.log, Ledger(1)) == 0 && FirstAt(grown.log, n) == 1;
    } else {
      assert Position([early], Ledger(Behind(closed))) == 0 && FirstAt([early], n) == 1;
    }
  }

  /**
   * A persisted start ledger is honoured by every run, however often the cursor is wound back, exactly
   * when it lies behind the margin; a later one is undone by the first quiet cycle.
   */
  lemma LateStartExactly(n: nat, closed: nat)
    ensures NeverReadsBefore(n, closed) <==> n <= 1 || n + 10 <= closed
  {
    if n <= Behind(closed) {
      forall s: Sys, ticks: seq<Tick> | StartedAt(s, n, closed) && LegalRun(s, ticks)
        ensures ReadsFrom(Run(s, ticks), n)
      {
        RunKeepsReadsFrom(s, ticks, n);
      }
    } else {
      QuietResetUndoesALateStart(n, closed);
    }
  }
}
