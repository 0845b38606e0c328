/**
 * At-least-once delivery, exactly-once effect: over any run with rewinds, restarts, lost
 * cursor writes and failed syncs in which no event is given up before it has had its effect,
 * the tables are those of one in-order pass over the log, interleaved with the other
 * writers' steps.
 */
module ExactlyOnce {
  import opened EscrowTables
  import opened ChainSync
  import opened SorobanPoller
  import opened PollerRuns
  import L = Lifecycle

  /** The syncs a stretch of the log asks for, in order. */
  function Wanted(db: Db, evs: seq<RawEvent>): seq<ChainEvent> {
    if evs == [] then []
    else Wanted(db, evs[..|evs| - 1]) +
         (if Dispatch(db, evs[|evs| - 1]).Some? then [Dispatch(db, evs[|evs| - 1]).value] else [])
  }

  function ChainPart(acts: seq<L.Action>): seq<ChainEvent> {
    if acts == [] then []
    else ChainPart(acts[..|acts| - 1]) + (if acts[|acts| - 1].Chain? then [acts[|acts| - 1].event] else [])
  }

  function OtherPart(acts: seq<L.Action>): seq<L.Action> {
    if acts == [] then []
    else OtherPart(acts[..|acts| - 1]) + (if acts[|acts| - 1].Chain? then [] else [acts[|acts| - 1]])
  }

  /** The steps other writers take while a batch is handled. */
  function BatchActs(p: Poller, log: seq<RawEvent>, i: nat, end: nat, c: Cycle): seq<L.Action>
    requires i <= end <= |log|
    decreases end - i
  {
    if i == end then []
    else
      var (next, ok) := Process(Meanwhile(p, c, i), log[i], FaultAt(c, i), c.now);
      OthersAt(c, i) + if ok then BatchActs(next, log, i + 1, end, c) else []
  }

  /** The cursor a cycle reads from. */
  function ReadCursor(p: Poller, c: Cycle): Cursor {
    if p.cursor.NoCursor? && StartLedger(c).Some? then Ledger(StartLedger(c).value) else p.cursor
  }

  function CycleActs(s: Sys, c: Cycle): seq<L.Action> {
    var p, log, cursor := s.poller, s.chain.log, ReadCursor(s.poller, c);
    if !c.fetchOk || cursor.NoCursor? || (cursor.Token? && cursor.index >= |log|) then []
    else
      var start := Position(log, cursor);
      BatchActs(p, log, start, Min(start + PAGE_LIMIT, |log|), c)
  }

  function ActsIn(s: Sys, t: Tick): seq<L.Action> {
    if t.Act? then [t.action] else if t.Poll? then CycleActs(s, t.cycle) else []
  }

  /** The other writers' steps of a run, between cycles and within them, in order. */
  function ActsOf(s: Sys, ticks: seq<Tick>): seq<L.Action>
    decreases |ticks|
  {
    if ticks == [] then [] else ActsIn(s, ticks[0]) + ActsOf(Next(s, ticks[0]), ticks[1..])
  }

  /** The event can no longer change the tables. */
  predicate Spent(db: Db, raw: RawEvent) {
    Dispatch(db, raw).Some? ==> Settled(db, Dispatch(db, raw).value)
  }

  /** The fifth counted failure in a row dead-letters an event that has not had its effect. */
  predicate GivesUp(p: Poller, raw: RawEvent, fault: Fault) {
    fault.SyncFails? && Retries(p, raw.id) >= 4 && !Spent(p.db, raw)
  }

  /** No event a batch handles is given up. */
  predicate BatchKeepsUp(p: Poller, log: seq<RawEvent>, i: nat, end: nat, c: Cycle)
    requires i <= end <= |log|
    decreases end - i
  {
    i < end ==>
      var m := Meanwhile(p, c, i);
      var (next, ok) := Process(m, log[i], FaultAt(c, i), c.now);
      !GivesUp(m, log[i], FaultAt(c, i)) && (ok ==> BatchKeepsUp(next, log, i + 1, end, c))
  }

  predicate CycleKeepsUp(s: Sys, c: Cycle) {
    var log, cursor := s.chain.log, ReadCursor(s.poller, c);
    c.fetchOk && !cursor.NoCursor? && (cursor.Token? ==> cursor.index < |log|) ==>
      var start := Position(log, cursor);
      BatchKeepsUp(s.poller, log, start, Min(start + PAGE_LIMIT, |log|), c)
  }

  /** No event is given up anywhere in a run; failures before a success or a restart do not add up. */
  predicate KeepsUp(s: Sys, ticks: seq<Tick>)
    decreases |ticks|
  {
    ticks != [] ==>
      (ticks[0].Poll? ==> CycleKeepsUp(s, ticks[0].cycle)) && KeepsUp(Next(s, ticks[0]), ticks[1..])
  }

  /** `once` applies the events `log[o..hi]` once each, in order, among the other writers' steps. */
  datatype Trace = Trace(once: seq<L.Action>, hi: nat)

  ghost predicate Tracks(p: Poller, log: seq<RawEvent>, db0: Db, o: nat, t: Trace) {
    && o <= t.hi <= |log|
    && p.db == L.Run(db0, t.once)
    && ChainPart(t.once) == Wanted(db0, log[o..t.hi])
    && forall k :: o <= k < t.hi ==> Spent(p.db, log[k])
  }

  lemma SpentStable(a: Db, b: Db, raw: RawEvent)
    requires Advances(a, b) && Spent(a, raw)
    ensures Spent(b, raw)
  {
    DispatchStable(a, b, raw);
    if Dispatch(a, raw).Some? { SettledStable(a, b, Dispatch(a, raw).value); }
  }

  /** One more step at the end of the trace. */
  lemma Extend(p: Poller, q: Poller, log: seq<RawEvent>, db0: Db, o: nat, t: Trace, a: L.Action)
    requires Tracks(p, log, db0, o, t) && q.db == L.Step(p.db, a).0
    ensures var once := t.once + [a];
            && q.db == L.Run(db0, once)
            && ChainPart(once) == ChainPart(t.once) + (if a.Chain? then [a.event] else [])
            && OtherPart(once) == OtherPart(t.once) + (if a.Chain? then [] else [a])
            && (forall k :: o <= k < t.hi ==> Spent(q.db, log[k]))
  {
    var once := t.once + [a];
    assert once[..|once| - 1] == t.once;
    L.RunConcat(db0, t.once, [a]);
    assert [a][1..] == [];
    L.RunAdvances(db0, t.once);
    L.StepAdvances(p.db, a);
    forall k | o <= k < t.hi ensures Spent(q.db, log[k]) { SpentStable(p.db, q.db, log[k]); }
  }

  /** Any number of steps of other writers at the end of the trace. */
  lemma {:induction false} ExtendAll(p: Poller, log: seq<RawEvent>, db0: Db, o: nat, t: Trace, acts: seq<L.Action>)
    requires Tracks(p, log, db0, o, t) && L.DisputesConsistent(p.db)
    requires forall a :: a in acts ==> !a.Chain?
    ensures var q := p.(db := L.Run(p.db, acts));
            && Tracks(q, log, db0, o, Trace(t.once + acts, t.hi)) && L.DisputesConsistent(q.db)
            && OtherPart(t.once + acts) == OtherPart(t.once) + acts
    decreases |acts|
  {
    hide L.Step, L.DisputesConsistent, Spent, Dispatch, Wanted, ChainPart, OtherPart;
    if acts == [] {
      assert t.once + acts == t.once && OtherPart(t.once) + acts == OtherPart(t.once);
    } else {
      var a := acts[0];
      var q := p.(db := L.Step(p.db, a).0);
      L.StepKeepsDisputes(p.db, a);
      Extend(p, q, log, db0, o, t, a);
      ExtendAll(q, log, db0, o, Trace(t.once + [a], t.hi), acts[1..]);
      assert t.once + [a] + acts[1..] == t.once + acts;
      assert OtherPart(t.once) + [a] + acts[1..] == OtherPart(t.once) + acts;
    }
  }

  /** What handling one event does to the poller when it is not given up. */
  ghost predicate Effect(p: Poller, raw: RawEvent, now: Time, q: Poller, ok: bool) {
    && q.db == (if ok && Dispatch(p.db, raw).Some? then Sync(p.db, Dispatch(p.db, raw).value, now).0 else p.db)
    && (ok ==> Spent(q.db, raw))
  }

  lemma ProcessEffect(p: Poller, raw: RawEvent, fault: Fault, now: Time)
    requires L.DisputesConsistent(p.db) && !GivesUp(p, raw, fault)
    ensures var (q, ok) := Process(p, raw, fault, now);
            Effect(p, raw, now, q, ok) && L.DisputesConsistent(q.db)
  {
    var e := Dispatch(p.db, raw);
    if e.Some? {
      L.SyncNeverFails(p.db, e.value, now);
      L.SyncKeepsDisputes(p.db, e.value, now);
      SyncAdvances(p.db, e.value, now);
      SyncSettles(p.db, e.value, now);
      DispatchStable(p.db, Sync(p.db, e.value, now).0, raw);
      if Spent(p.db, raw) { SettledExactly(p.db, e.value); }
    }
  }

  lemma RepeatIsNoop(p: Poller, q: Poller, ok: bool, raw: RawEvent, now: Time)
    requires Effect(p, raw, now, q, ok) && Spent(p.db, raw)
    ensures q.db == p.db
  {
    if ok && Dispatch(p.db, raw).Some? { SettledExactly(p.db, Dispatch(p.db, raw).value); }
  }

  lemma WantedSnoc(db: Db, log: seq<RawEvent>, o: nat, i: nat)
    requires o <= i < |log|
    ensures Wanted(db, log[o..i + 1]) ==
            Wanted(db, log[o..i]) + (if Dispatch(db, log[i]).Some? then [Dispatch(db, log[i]).value] else [])
  {
    assert log[o..i + 1][..i - o] == log[o..i];
    assert log[o..i + 1][i - o] == log[i];
  }

  /** The event at the front of the trace, handled for the first time. */
  lemma FirstTracks(p: Poller, q: Poller, log: seq<RawEvent>, now: Time, db0: Db, o: nat, t: Trace)
    returns (u: Trace)
    requires Tracks(p, log, db0, o, t) && t.hi < |log|
    requires Effect(p, log[t.hi], now, q, true)
    ensures Tracks(q, log, db0, o, u)
    ensures u.hi == t.hi + 1 && OtherPart(u.once) == OtherPart(t.once)
  {
    hide Sync, Spent, Dispatch, Wanted, ChainPart, OtherPart, L.Step, L.Run;
    var e := Dispatch(p.db, log[t.hi]);
    assert Dispatch(db0, log[t.hi]) == e by {
      L.RunAdvances(db0, t.once);
      DispatchStable(db0, p.db, log[t.hi]);
    }
    WantedSnoc(db0, log, o, t.hi);
    if e.None? {
      u := Trace(t.once, t.hi + 1);
    } else {
      var a := L.Chain(e.value, now);
      L.ChainStepIsSync(p.db, e.value, now);
      Extend(p, q, log, db0, o, t, a);
      u := Trace(t.once + [a], t.hi + 1);
    }
  }

  /** Handling event `i` either repeats an effect the tables already have or adds it to the trace. */
  lemma EffectTracks(p: Poller, q: Poller, ok: bool, log: seq<RawEvent>, i: nat, now: Time, db0: Db, o: nat, t: Trace)
    returns (u: Trace)
    requires Tracks(p, log, db0, o, t)
    requires o <= i <= t.hi && i < |log|
    requires Effect(p, log[i], now, q, ok)
    ensures Tracks(q, log, db0, o, u)
    ensures t.hi <= u.hi && (ok ==> i < u.hi)
    ensures OtherPart(u.once) == OtherPart(t.once)
  {
    if ok && i == t.hi {
      u := FirstTracks(p, q, log, now, db0, o, t);
    } else {
      if ok { RepeatIsNoop(p, q, ok, log[i], now); }
      u := t;
    }
  }

  /** The first event of a batch that ends in `(q, stop)`, and the other writers' steps before it. */
  lemma HeadTracks(p: Poller, log: seq<RawEvent>, i: nat, end: nat, c: Cycle,
                   db0: Db, o: nat, t: Trace, q: Poller, stop: nat)
    returns (next: Poller, ok: bool, u: Trace)
    requires Tracks(p, log, db0, o, t) && L.DisputesConsistent(p.db)
    requires o <= i <= t.hi && i < end <= |log|
    requires BatchKeepsUp(p, log, i, end, c) && OthersOnly(c)
    requires (q, stop) == Batch(p, log, i, end, c)
    ensures (next, ok) == Process(Meanwhile(p, c, i), log[i], FaultAt(c, i), c.now)
    ensures (q, stop) == if ok then Batch(next, log, i + 1, end, c) else (next, i)
    ensures ok ==> BatchKeepsUp(next, log, i + 1, end, c)
    ensures Tracks(next, log, db0, o, u) && L.DisputesConsistent(next.db)
    ensures t.hi <= u.hi && (ok ==> i < u.hi)
    ensures OtherPart(u.once) == OtherPart(t.once) + OthersAt(c, i)
  {
    hide Process, Tracks, GivesUp, L.DisputesConsistent, L.Run, OtherPart;
    var m := Meanwhile(p, c, i);
    var (n, k) := Process(m, log[i], FaultAt(c, i), c.now);
    next, ok := n, k;
    ExtendAll(p, log, db0, o, t, OthersAt(c, i));
    var v := Trace(t.once + OthersAt(c, i), t.hi);
    ProcessEffect(m, log[i], FaultAt(c, i), c.now);
    u := EffectTracks(m, next, ok, log, i, c.now, db0, o, v);
  }

  lemma {:induction false} BatchTracks(p: Poller, log: seq<RawEvent>, i: nat, end: nat, c: Cycle,
                                       db0: Db, o: nat, t: Trace, q: Poller, stop: nat)
    returns (u: Trace)
    requires Tracks(p, log, db0, o, t) && L.DisputesConsistent(p.db)
    requires o <= i <= t.hi && i <= end <= |log|
    requires BatchKeepsUp(p, log, i, end, c) && OthersOnly(c)
    requires (q, stop) == Batch(p, log, i, end, c)
    ensures Tracks(q, log, db0, o, u) && L.DisputesConsistent(q.db)
    ensures t.hi <= u.hi && stop <= u.hi
    ensures OtherPart(u.once) == OtherPart(t.once) + BatchActs(p, log, i, end, c)
    decreases end - i
  {
    hide Process, Tracks, GivesUp, L.DisputesConsistent, OtherPart, OthersOnly, L.Run;
    u := t;
    if i == end {
      assert OtherPart(t.once) + [] == OtherPart(t.once);
    } else {
      var next, ok, v := HeadTracks(p, log, i, end, c, db0, o, t, q, stop);
      u := v;
      if ok {
        u := BatchTracks(next, log, i + 1, end, c, db0, o, v, q, stop);
        var rest := BatchActs(next, log, i + 1, end, c);
        assert OtherPart(t.once) + OthersAt(c, i) + rest == OtherPart(t.once) + (OthersAt(c, i) + rest);
      } else {
        assert OthersAt(c, i) + [] == OthersAt(c, i);
      }
    }
  }

  /** The persisted cursor reads from between the start and the front of the trace. */
  ghost predicate CursorGood(s: Sys, n: nat, hi: nat) {
    var cursor, log := s.poller.cursor, s.chain.log;
    && ValidChain(s.chain)
    && n <= Behind(s.chain.closed)
    && !cursor.NoCursor?
    && ValidToken(s)
    && (cursor.Ledger? ==> n <= cursor.n <= s.chain.closed + 1)
    && FirstAt(log, n) <= Position(log, cursor) <= hi <= |log|
  }

  /** The invariant of a run. */
  ghost predicate Good(s: Sys, db0: Db, n: nat, t: Trace) {
    && CursorGood(s, n, t.hi)
    && Tracks(s.poller, s.chain.log, db0, FirstAt(s.chain.log, n), t)
    && L.DisputesConsistent(s.poller.db)
  }

  /** A cycle that moves the cursor forward over handled events, or back by a quiet reset. */
  lemma CursorMoves(s: Sys, c: Cycle, n: nat, hi: nat, q: Poller, h: nat)
    requires CursorGood(s, n, hi) && Legal(s, Poll(c)) && hi <= h <= |s.chain.log|
    requires || q.cursor == s.poller.cursor
             || (q.cursor.Token? && Position(s.chain.log, s.poller.cursor) <= q.cursor.index < h)
             || (c.latest.Some? && q.cursor == Ledger(Behind(c.latest.value)) && h == |s.chain.log|)
    ensures CursorGood(s.(poller := q), n, h)
  {
    if q.cursor.Ledger? { FirstAtMonotone(s.chain.log, n, q.cursor.n, 0); }
  }

  /** A cycle that has fetched a page. */
  lemma PageCycle(s: Sys, c: Cycle)
    requires ValidToken(s) && !s.poller.cursor.NoCursor? && c.fetchOk
    requires Position(s.chain.log, s.poller.cursor) < |s.chain.log|
    ensures var start := Position(s.chain.log, s.poller.cursor);
            var end := Min(start + PAGE_LIMIT, |s.chain.log|);
            var (b, stop) := Batch(s.poller, s.chain.log, start, end, c);
            && Next(s, Poll(c)) == s.(poller := if stop > start && c.writeOk then b.(cursor := Token(stop - 1)) else b)
            && CycleActs(s, c) == BatchActs(s.poller, s.chain.log, start, end, c)
            && (CycleKeepsUp(s, c) <==> BatchKeepsUp(s.poller, s.chain.log, start, end, c))
  {
    hide Batch, BatchActs, BatchKeepsUp;
  }

  /** A fetched page: the batch, then the cursor behind the last event it handled. */
  lemma PageKeepsGood(s: Sys, c: Cycle, db0: Db, n: nat, t: Trace) returns (u: Trace)
    requires Good(s, db0, n, t) && Legal(s, Poll(c)) && CycleKeepsUp(s, c)
    requires c.fetchOk && Position(s.chain.log, s.poller.cursor) < |s.chain.log|
    ensures Good(Next(s, Poll(c)), db0, n, u)
    ensures OtherPart(u.once) == OtherPart(t.once) + CycleActs(s, c)
  {
    hide Process, Batch, BatchActs, BatchKeepsUp, CycleActs, CycleKeepsUp, Next, L.DisputesConsistent;
    hide Spent, FirstAt, Wanted, ChainPart, OtherPart, L.Run;
    var p, log := s.poller, s.chain.log;
    var start := Position(log, p.cursor);
    var end := Min(start + PAGE_LIMIT, |log|);
    PageCycle(s, c);
    var (b, stop) := Batch(p, log, start, end, c);
    u := BatchTracks(p, log, start, end, c, db0, FirstAt(log, n), t, b, stop);
    var q := if stop > start && c.writeOk then b.(cursor := Token(stop - 1)) else b;
    assert b.cursor == p.cursor;
    CursorMoves(s, c, n, t.hi, q, u.hi);
  }

  /** A failed fetch or a quiet cycle. */
  lemma QuietKeepsGood(s: Sys, c: Cycle, db0: Db, n: nat, t: Trace)
    requires Good(s, db0, n, t) && Legal(s, Poll(c))
    requires !c.fetchOk || Position(s.chain.log, s.poller.cursor) == |s.chain.log|
    ensures Good(Next(s, Poll(c)), db0, n, t)
  {
    hide Process, Batch, L.DisputesConsistent, Spent;
    CursorMoves(s, c, n, t.hi, Next(s, Poll(c)).poller, t.hi);
  }

  lemma QuietActs(s: Sys, c: Cycle)
    requires ValidToken(s) && !s.poller.cursor.NoCursor?
    requires !c.fetchOk || Position(s.chain.log, s.poller.cursor) == |s.chain.log|
    ensures CycleActs(s, c) == []
  {}

  lemma GoodCursor(s: Sys, db0: Db, n: nat, t: Trace)
    requires Good(s, db0, n, t)
    ensures ValidToken(s) && !s.poller.cursor.NoCursor?
  {}

  lemma PollKeepsGood(s: Sys, c: Cycle, db0: Db, n: nat, t: Trace) returns (u: Trace)
    requires Good(s, db0, n, t) && Legal(s, Poll(c)) && CycleKeepsUp(s, c)
    ensures Good(Next(s, Poll(c)), db0, n, u)
    ensures OtherPart(u.once) == OtherPart(t.once) + CycleActs(s, c)
  {
    hide Good, Legal, Next, Batch, BatchActs, BatchKeepsUp, CycleActs, CycleKeepsUp, OtherPart, FirstAt;
    GoodCursor(s, db0, n, t);
    var p, log := s.poller, s.chain.log;
    var start := Position(log, p.cursor);
    u := t;
    if c.fetchOk && start < |log| {
      u := PageKeepsGood(s, c, db0, n, t);
    } else {
      QuietKeepsGood(s, c, db0, n, t);
      QuietActs(s, c);
      assert OtherPart(t.once) + [] == OtherPart(t.once);
    }
  }

  lemma GrowKeepsGood(s: Sys, next: Chain, db0: Db, n: nat, t: Trace)
    requires Good(s, db0, n, t) && Grows(s.chain, next)
    ensures Good(Next(s, Grow(next)), db0, n, t)
  {
    hide Spent, L.DisputesConsistent, FirstAt, Wanted, ChainPart, L.Run;
    var p, log := s.poller, s.chain.log;
    PositionStable(s.chain, next, p.cursor);
    PositionStable(s.chain, next, Ledger(n));
    assert next.log[FirstAt(log, n)..t.hi] == log[FirstAt(log, n)..t.hi];
  }

  lemma ActKeepsGood(s: Sys, a: L.Action, db0: Db, n: nat, t: Trace)
    requires Good(s, db0, n, t) && !a.Chain?
    ensures Good(Next(s, Act(a)), db0, n, Trace(t.once + [a], t.hi))
    ensures OtherPart(t.once + [a]) == OtherPart(t.once) + [a]
  {
    hide L.Step, L.Run, L.DisputesConsistent, Spent, FirstAt, Position;
    hide Wanted, ChainPart, OtherPart;
    var q := Next(s, Act(a)).poller;
    L.StepKeepsDisputes(s.poller.db, a);
    Extend(s.poller, q, s.chain.log, db0, FirstAt(s.chain.log, n), t, a);
  }

  lemma RestartKeepsGood(s: Sys, db0: Db, n: nat, t: Trace)
    requires Good(s, db0, n, t)
    ensures Good(Next(s, Restart), db0, n, t)
  {
    hide L.DisputesConsistent, L.Run, Spent, FirstAt, Wanted, ChainPart;
  }

  lemma {:induction false} RunKeepsGood(s: Sys, db0: Db, n: nat, t: Trace, ticks: seq<Tick>) returns (u: Trace)
    requires Good(s, db0, n, t) && LegalRun(s, ticks) && KeepsUp(s, ticks)
    ensures Good(Run(s, ticks), db0, n, u)
    ensures OtherPart(u.once) == OtherPart(t.once) + ActsOf(s, ticks)
    decreases |ticks|
  {
    hide Good, L.Step, PollCycle, OtherPart, CycleActs, CycleKeepsUp;
    u := t;
    if ticks == [] {
      assert OtherPart(t.once) + [] == OtherPart(t.once);
    } else {
      var tick, rest := ticks[0], ticks[1..];
      match tick {
        case Poll(c) => u := PollKeepsGood(s, c, db0, n, t);
        case Grow(next) => GrowKeepsGood(s, next, db0, n, t);
        case Restart => RestartKeepsGood(s, db0, n, t);
        case Act(a) =>
          ActKeepsGood(s, a, db0, n, t);
          u := Trace(t.once + [a], t.hi);
      }
      var here, later := ActsIn(s, tick), ActsOf(Next(s, tick), rest);
      assert OtherPart(u.once) == OtherPart(t.once) + here;
      var v := RunKeepsGood(Next(s, tick), db0, n, u, rest);
      assert OtherPart(t.once) + here + later == OtherPart(t.once) + (here + later);
      u := v;
    }
  }

  /** Without a cursor the poller reads from its start ledger. */
  function AtStart(p: Poller, n: nat): Poller { if p.cursor.NoCursor? then p.(cursor := Ledger(n)) else p }

  /**
   * The tables of `r` are those of `s` after `once`, whose chain events are those of the log from
   * ledger `n` to index `hi`, each once and in order, and the cursor has not passed `hi`.
   */
  ghost predicate OncePass(s: Sys, n: nat, r: Sys, once: seq<L.Action>, hi: nat) {
    var o := FirstAt(r.chain.log, n);
    && ValidToken(r)
    && o <= Position(r.chain.log, AtStart(r.poller, n).cursor) <= hi <= |r.chain.log|
    && r.poller.db == L.Run(s.poller.db, once)
    && ChainPart(once) == Wanted(s.poller.db, r.chain.log[o..hi])
  }

  lemma FromStartLedger(s: Sys, ticks: seq<Tick>) returns (once: seq<L.Action>, hi: nat)
    requires ValidChain(s.chain) && L.DisputesConsistent(s.poller.db)
    requires s.poller.cursor.Ledger? && s.poller.cursor.n <= Behind(s.chain.closed)
    requires LegalRun(s, ticks) && KeepsUp(s, ticks)
    ensures OncePass(s, s.poller.cursor.n, Run(s, ticks), once, hi) && OtherPart(once) == ActsOf(s, ticks)
  {
    hide Spent, L.DisputesConsistent, Next, Legal, CycleActs;
    var n, db0 := s.poller.cursor.n, s.poller.db;
    var o := FirstAt(s.chain.log, n);
    var t := Trace([], o);
    assert s.chain.log[o..o] == [];
    var u := RunKeepsGood(s, db0, n, t, ticks);
    once, hi := u.once, u.hi;
  }

  // ── Before a cursor is persisted ──────────────────────────────────────────

  function SysAt(s: Sys, n: nat): Sys { s.(poller := AtStart(s.poller, n)) }

  /** As long as there is no cursor, every cycle resolves start ledger `n`, or none because the node is down. */
  ghost predicate StartsAt(s: Sys, ticks: seq<Tick>, n: nat)
    decreases |ticks|
  {
    ticks != [] ==>
      && (ticks[0].Poll? && s.poller.cursor.NoCursor? ==>
            StartLedger(ticks[0].cycle) == None || StartLedger(ticks[0].cycle) == Some(n))
      && StartsAt(Next(s, ticks[0]), ticks[1..], n)
  }

  /** So it is when `n` is configured, or a cursor is persisted. */
  lemma {:induction false} StartsAtConfig(s: Sys, ticks: seq<Tick>, configured: nat, n: nat)
    requires SameConfig(ticks, configured)
    requires !s.poller.cursor.NoCursor? || configured == n != 0
    ensures StartsAt(s, ticks, n)
    decreases |ticks|
  {
    if ticks != [] {
      if !s.poller.cursor.NoCursor? { CursorStays(s, ticks[0]); }
      StartsAtConfig(Next(s, ticks[0]), ticks[1..], configured, n);
    }
  }

  lemma ProcessIgnoresCursor(p: Poller, cursor: Cursor, raw: RawEvent, fault: Fault, now: Time)
    ensures var (q, ok) := Process(p, raw, fault, now);
            Process(p.(cursor := cursor), raw, fault, now) == (q.(cursor := cursor), ok)
  {
    hide Sync, Dispatch;
  }

  lemma {:induction false} BatchIgnoresCursor(p: Poller, cursor: Cursor, log: seq<RawEvent>, i: nat, end: nat, c: Cycle)
    requires i <= end <= |log|
    ensures var (b, stop) := Batch(p, log, i, end, c);
            Batch(p.(cursor := cursor), log, i, end, c) == (b.(cursor := cursor), stop)
    ensures BatchActs(p.(cursor := cursor), log, i, end, c) == BatchActs(p, log, i, end, c)
    ensures BatchKeepsUp(p.(cursor := cursor), log, i, end, c) <==> BatchKeepsUp(p, log, i, end, c)
    decreases end - i
  {
    hide Process, L.Run;
    if i < end {
      ProcessIgnoresCursor(Meanwhile(p, c, i), cursor, log[i], FaultAt(c, i), c.now);
      var next := Process(Meanwhile(p, c, i), log[i], FaultAt(c, i), c.now).0;
      assert Meanwhile(p.(cursor := cursor), c, i) == Meanwhile(p, c, i).(cursor := cursor);
      BatchIgnoresCursor(next, cursor, log, i + 1, end, c);
    }
  }

  /** A cycle without a cursor does what the same cycle with the start ledger persisted does. */
  lemma CycleAtStart(s: Sys, c: Cycle, n: nat)
    requires ValidToken(s) && (s.poller.cursor.NoCursor? ==> StartLedger(c) == Some(n))
    ensures SysAt(Next(s, Poll(c)), n) == Next(SysAt(s, n), Poll(c))
    ensures CycleActs(s, c) == CycleActs(SysAt(s, n), c)
    ensures CycleKeepsUp(s, c) <==> CycleKeepsUp(SysAt(s, n), c)
  {
    hide Batch, BatchActs, BatchKeepsUp;
    var p, log := s.poller, s.chain.log;
    if p.cursor.NoCursor? {
      var start := Position(log, Ledger(n));
      BatchIgnoresCursor(p, Ledger(n), log, start, Min(start + PAGE_LIMIT, |log|), c);
    }
  }

  /** The same tick with the start ledger persisted; a cycle that resolved none becomes one whose fetch failed. */
  function Restate(s: Sys, t: Tick): Tick {
    if t.Poll? && s.poller.cursor.NoCursor? && StartLedger(t.cycle).None? then Poll(t.cycle.(fetchOk := false)) else t
  }

  function Restated(s: Sys, ticks: seq<Tick>): seq<Tick>
    decreases |ticks|
  {
    if ticks == [] then [] else [Restate(s, ticks[0])] + Restated(Next(s, ticks[0]), ticks[1..])
  }

  lemma TickAtStart(s: Sys, t: Tick, n: nat)
    requires Legal(s, t) && ValidToken(s)
    requires t.Poll? && s.poller.cursor.NoCursor? ==> StartLedger(t.cycle) == None || StartLedger(t.cycle) == Some(n)
    ensures var u := Restate(s, t);
            && Legal(SysAt(s, n), u) && SysAt(Next(s, t), n) == Next(SysAt(s, n), u)
            && ActsIn(s, t) == ActsIn(SysAt(s, n), u)
            && (t.Poll? <==> u.Poll?)
            && (t.Poll? && CycleKeepsUp(s, t.cycle) ==> CycleKeepsUp(SysAt(s, n), u.cycle))
            && ValidToken(Next(s, t))
  {
    hide Batch, BatchActs, BatchKeepsUp, L.Step;
    if t.Poll? && (!s.poller.cursor.NoCursor? || StartLedger(t.cycle).Some?) { CycleAtStart(s, t.cycle, n); }
  }

  lemma {:induction false} RunAtStart(s: Sys, ticks: seq<Tick>, n: nat)
    requires LegalRun(s, ticks) && StartsAt(s, ticks, n) && KeepsUp(s, ticks) && ValidToken(s)
    ensures var us := Restated(s, ticks);
            && LegalRun(SysAt(s, n), us) && KeepsUp(SysAt(s, n), us) && SysAt(Run(s, ticks), n) == Run(SysAt(s, n), us)
            && ActsOf(s, ticks) == ActsOf(SysAt(s, n), us) && ValidToken(Run(s, ticks))
    decreases |ticks|
  {
    hide Next, Legal, SysAt, ActsIn, Restate, ValidToken, CycleKeepsUp;
    if ticks != [] {
      TickAtStart(s, ticks[0], n);
      RunAtStart(Next(s, ticks[0]), ticks[1..], n);
      assert Restated(s, ticks)[1..] == Restated(Next(s, ticks[0]), ticks[1..]);
    }
  }

  /**
   * From a poller that has never run, or has a start ledger persisted, with any retry counts, through
   * any legal run in which no event is given up before it has had its effect, the tables equal one pass
   * over the log from the first event at that ledger, each event once and in order, interleaved with
   * the other writers' steps in their order; and the pass has covered everything before the cursor.
   */
  lemma ExactlyOnceEffect(s: Sys, n: nat, ticks: seq<Tick>) returns (once: seq<L.Action>, hi: nat)
    requires ValidChain(s.chain) && L.DisputesConsistent(s.poller.db)
    requires s.poller.cursor.NoCursor? || s.poller.cursor == Ledger(n)
    requires n <= Behind(s.chain.closed)
    requires LegalRun(s, ticks) && StartsAt(s, ticks, n) && KeepsUp(s, ticks)
    ensures OncePass(s, n, Run(s, ticks), once, hi) && OtherPart(once) == ActsOf(s, ticks)
  {
    hide L.DisputesConsistent, Next, Legal, CycleActs, Restated, StartsAt, KeepsUp, LegalRun, Run, Wanted;
    RunAtStart(s, ticks, n);
    once, hi := FromStartLedger(SysAt(s, n), Restated(s, ticks));
  }

  lemma {:induction false} AppliedSettles(db0: Db, once: seq<L.Action>, e: ChainEvent)
    requires e in ChainPart(once) && e.escrowId in db0.escrows
    ensures Settled(L.Run(db0, once), e)
    decreases |once|
  {
    hide L.Step, Settled, Sync;
    var init, a := once[..|once| - 1], once[|once| - 1];
    assert once == init + [a];
    L.RunConcat(db0, init, [a]);
    L.RunOne(L.Run(db0, init), a);
    L.RunAdvances(db0, init);
    var before := L.Run(db0, init);
    if e in ChainPart(init) {
      AppliedSettles(db0, init, e);
      L.StepAdvances(before, a);
      SettledStable(before, L.Step(before, a).0, e);
    } else {
      L.ChainStepIsSync(before, e, a.now);
      SyncSettles(before, e, a.now);
    }
  }

  lemma {:induction false} WantedHas(db: Db, evs: seq<RawEvent>, k: nat)
    requires k < |evs| && Dispatch(db, evs[k]).Some?
    ensures Dispatch(db, evs[k]).value in Wanted(db, evs)
    decreases |evs|
  {
    hide Dispatch;
    if k < |evs| - 1 {
      assert evs[..|evs| - 1][k] == evs[k];
      WantedHas(db, evs[..|evs| - 1], k);
    }
  }

  /**
   * There is no such pass once the cursor has left behind an event that has not had its effect: in
   * tables that are one pass over the log, every event of the pass is spent.
   */
  lemma OncePassNeedsSpent(s: Sys, n: nat, r: Sys, once: seq<L.Action>, hi: nat, k: nat)
    requires OncePass(s, n, r, once, hi) && FirstAt(r.chain.log, n) <= k < hi
    ensures Spent(r.poller.db, r.chain.log[k])
  {
    hide L.Run, Settled, Wanted, ChainPart, Dispatch, FirstAt;
    var db0, raw, o := s.poller.db, r.chain.log[k], FirstAt(r.chain.log, n);
    L.RunAdvances(db0, once);
    DispatchStable(db0, r.poller.db, raw);
    if Dispatch(db0, raw).Some? {
      var evs := r.chain.log[o..hi];
      assert evs[k - o] == raw;
      WantedHas(db0, evs, k - o);
      AppliedSettles(db0, once, Dispatch(db0, raw).value);
    }
  }

  /**
   * An event the batch moved past has had its effect, except exactly when its fifth counted
   * failure dead-lettered it before it had.
   */
  lemma PassedOverExactly(p: Poller, raw: RawEvent, fault: Fault, now: Time)
    requires L.DisputesConsistent(p.db)
    requires Process(p, raw, fault, now).1
    ensures Spent(Process(p, raw, fault, now).0.db, raw) <==> !GivesUp(p, raw, fault)
  {
    var e := Dispatch(p.db, raw);
    if e.Some? {
      L.SyncNeverFails(p.db, e.value, now);
      SyncAdvances(p.db, e.value, now);
      SyncSettles(p.db, e.value, now);
      DispatchStable(p.db, Sync(p.db, e.value, now).0, raw);
    }
  }
}
