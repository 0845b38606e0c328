/** Which cursor a cycle leaves, and that no event blocks the poller for more than five cycles. */
module PollerProgress {
  import opened EscrowTables
  import opened SorobanPoller
  import opened PollerRuns
  import L = Lifecycle
  import S = ChainSync

  // ── The cursor ────────────────────────────────────────────────────────────

  /** The margin of ten ledgers behind the latest one. */
  predicate TenBehind(latest: nat, n: nat) { if latest > 10 then n + 10 == latest else n == 1 }

  /** A cycle reads from its cursor, else from the configured ledger, else from ten behind the latest. */
  predicate ReadsAt(s: Poller, c: Cycle, cursor: Cursor) {
    if !s.cursor.NoCursor? then cursor == s.cursor
    else if c.configured != 0 then cursor == Ledger(c.configured)
    else c.startLatest.Some? && cursor.Ledger? && TenBehind(c.startLatest.value, cursor.n)
  }

  /** The cursor that is stored before the page is handled. */
  function Kept(s: Poller, c: Cycle, cursor: Cursor): Cursor {
    if s.cursor.NoCursor? && c.firstWriteOk then cursor else s.cursor
  }

  /** Without a page: what a cycle leaves when it has no start, cannot fetch, or finds no event. */
  lemma NoPageExactly(s: Poller, log: seq<RawEvent>, c: Cycle, cursor: Cursor)
    requires s.cursor.Token? ==> s.cursor.index < |log|
    ensures s.cursor.NoCursor? && c.configured == 0 && c.startLatest.None? ==> PollCycle(s, log, c) == s
    ensures ReadsAt(s, c, cursor) && !c.fetchOk ==> PollCycle(s, log, c) == s.(cursor := Kept(s, c, cursor))
    ensures ReadsAt(s, c, cursor) && c.fetchOk && Position(log, cursor) == |log| ==>
              var n := PollCycle(s, log, c);
              && n == s.(cursor := n.cursor)
              && if c.writeOk && c.latest.Some? && c.latest.value != 0
                 then n.cursor.Ledger? && TenBehind(c.latest.value, n.cursor.n)
                 else n.cursor == Kept(s, c, cursor)
  {
    hide Batch;
  }

  lemma CleanEvent(p: Poller, raw: RawEvent, now: Time)
    requires L.DisputesConsistent(p.db)
    ensures Process(p, raw, NoFault, now).1 && L.DisputesConsistent(Process(p, raw, NoFault, now).0.db)
  {
    hide L.DisputesConsistent, S.Sync;
    var e := Dispatch(p.db, raw);
    if e.Some? {
      L.SyncNeverFails(p.db, e.value, now);
      L.SyncKeepsDisputes(p.db, e.value, now);
    }
  }

  lemma {:induction false} CleanBatch(p: Poller, log: seq<RawEvent>, i: nat, end: nat, c: Cycle)
    requires i <= end <= |log| && L.DisputesConsistent(p.db)
    requires forall k :: i <= k < end ==> FaultAt(c, k).NoFault?
    ensures Batch(p, log, i, end, c).1 == end
    decreases end - i
  {
    hide Process, L.DisputesConsistent;
    if i < end {
      var m := Meanwhile(p, c, i);
      L.RunKeepsDisputes(p.db, OthersAt(c, i));
      CleanEvent(m, log[i], c.now);
      CleanBatch(Process(m, log[i], FaultAt(c, i), c.now).0, log, i + 1, end, c);
    }
  }

  /** From tables in agreement, a cycle without faults stores the token of the last of up to 100 events. */
  lemma CleanCycleExactly(s: Poller, log: seq<RawEvent>, c: Cycle, cursor: Cursor)
    requires (s.cursor.Token? ==> s.cursor.index < |log|) && ReadsAt(s, c, cursor)
    requires L.DisputesConsistent(s.db) && c.fetchOk && c.writeOk && forall k: nat :: FaultAt(c, k).NoFault?
    requires Position(log, cursor) < |log|
    ensures var pos := Position(log, cursor);
            PollCycle(s, log, c).cursor == Token(if pos + 100 <= |log| then pos + 99 else |log| - 1)
  {
    hide Process, Batch, FaultAt, Position, L.DisputesConsistent;
    var pos := Position(log, cursor);
    var b := s.(cursor := Kept(s, c, cursor));
    CleanBatch(b, log, pos, Min(pos + PAGE_LIMIT, |log|), c);
    assert PollCycle(s, log, c) == CycleFrom(b, cursor, log, c);
  }

  // ── Progress ──────────────────────────────────────────────────────────────

  /** A cycle in which the node, the id lookups and the cursor table answer; syncs may still fail. */
  ghost predicate Reachable(c: Cycle) {
    c.fetchOk && c.writeOk && forall i: nat :: !FaultAt(c, i).LookupFails?
  }

  ghost predicate CountsBelow(p: Poller) { forall id :: Retries(p, id) < 5 }

  /** Cycles that may still pass before the cursor reaches the end of the log. */
  ghost function Remaining(s: Sys): int
    requires ValidToken(s)
  {
    var pos, log := Position(s.chain.log, s.poller.cursor), s.chain.log;
    5 * (|log| - pos) - (if pos < |log| then Retries(s.poller, log[pos].id) else 0)
  }

  lemma ProcessCounts(p: Poller, raw: RawEvent, fault: Fault, now: Time)
    requires CountsBelow(p) && !fault.LookupFails?
    ensures var (q, ok) := Process(p, raw, fault, now);
            CountsBelow(q) && (!ok ==> Retries(q, raw.id) == Retries(p, raw.id) + 1)
  {
    var q := Process(p, raw, fault, now).0;
    forall id ensures Retries(q, id) < 5 {
      assert Retries(p, id) < 5;
    }
  }

  lemma {:induction false} BatchCounts(p: Poller, log: seq<RawEvent>, i: nat, end: nat, c: Cycle)
    requires i <= end <= |log| && CountsBelow(p) && Reachable(c)
    ensures CountsBelow(Batch(p, log, i, end, c).0)
    decreases end - i
  {
    hide Process;
    if i < end {
      var m := Meanwhile(p, c, i);
      assert forall id :: Retries(m, id) == Retries(p, id);
      ProcessCounts(m, log[i], FaultAt(c, i), c.now);
      var (next, ok) := Process(m, log[i], FaultAt(c, i), c.now);
      if ok { BatchCounts(next, log, i + 1, end, c); }
    }
  }

  /** A cycle with events to read moves the cursor on, or spends one of the head event's five attempts. */
  lemma CycleProgress(s: Sys, c: Cycle)
    requires ValidToken(s) && !s.poller.cursor.NoCursor?
    requires CountsBelow(s.poller) && Reachable(c)
    requires Position(s.chain.log, s.poller.cursor) < |s.chain.log|
    ensures var n := Next(s, Poll(c));
            ValidToken(n) && !n.poller.cursor.NoCursor? && CountsBelow(n.poller) && Remaining(n) < Remaining(s)
  {
    hide Process;
    var p, log := s.poller, s.chain.log;
    var start := Position(log, p.cursor);
    var end := Min(start + PAGE_LIMIT, |log|);
    var m := Meanwhile(p, c, start);
    assert forall id :: Retries(m, id) == Retries(p, id);
    BatchCounts(p, log, start, end, c);
    ProcessCounts(m, log[start], FaultAt(c, start), c.now);
    var (next, ok) := Process(m, log[start], FaultAt(c, start), c.now);
    var (b, stop) := Batch(p, log, start, end, c);
    assert ok ==> stop > start;
    var n := Next(s, Poll(c)).poller;
    assert forall id :: Retries(n, id) == Retries(b, id);
  }

  function Polls(ticks: seq<Tick>): nat {
    if ticks == [] then 0 else (if ticks[0].Poll? then 1 else 0) + Polls(ticks[1..])
  }

  /**
   * On a finite log, whichever syncs fail and whatever other writers do in between, the
   * cursor reaches the end within five cycles for each event that was still ahead of it.
   */
  lemma {:induction false} ReachesTheEnd(s: Sys, ticks: seq<Tick>) returns (k: nat)
    requires ValidToken(s) && !s.poller.cursor.NoCursor? && CountsBelow(s.poller)
    requires forall i :: 0 <= i < |ticks| ==> ticks[i].Act? || (ticks[i].Poll? && Reachable(ticks[i].cycle))
    requires Polls(ticks) >= Remaining(s)
    ensures Remaining(s) <= 5 * (|s.chain.log| - Position(s.chain.log, s.poller.cursor))
    ensures k <= |ticks| && Polls(ticks[..k]) <= Remaining(s)
    ensures var r := Run(s, ticks[..k]);
            && r.chain == s.chain && ValidToken(r)
            && Position(r.chain.log, r.poller.cursor) == |s.chain.log|
    decreases |ticks|
  {
    if Position(s.chain.log, s.poller.cursor) == |s.chain.log| {
      k := 0;
    } else {
      var t := ticks[0];
      var n := Next(s, t);
      if t.Poll? {
        CycleProgress(s, t.cycle);
      } else {
        assert forall id :: Retries(n.poller, id) == Retries(s.poller, id);
      }
      hide Next, CountsBelow;
      var j := ReachesTheEnd(n, ticks[1..]);
      k := j + 1;
      assert ticks[..k][0] == t && ticks[..k][1..] == ticks[1..][..j];
    }
  }
}
