/**
 * The bounded pool of the tracking worker: lanes share one index, take the next item when they
 * finish one, and stop when none is left.
 *
 * Models `runWithConcurrency` of src/workers/tracking-poll.worker.ts. Items are named by position.
 */
module WorkerPool {
  import opened EscrowTables

  /** `lanes` holds what each lane works on, None once it has stopped. The lists are in time order. */
  datatype Pool = Pool(index: nat, lanes: seq<Option<nat>>, started: seq<nat>, completed: seq<nat>, failed: seq<nat>)

  function Range(n: nat): (r: seq<nat>)
    ensures |r| == n && forall i :: 0 <= i < n ==> r[i] == i
  {
    seq(n, i => i)
  }

  function Min(a: int, b: int): int { if a < b then a else b }

  /** `Array.from` with a negative length is empty. */
  function LaneCount(n: nat, concurrency: int): nat {
    var least := Min(concurrency, n);
    if least < 0 then 0 else least
  }

  /** All lanes start before any item completes. */
  function Start(n: nat, concurrency: int): Pool {
    var k := LaneCount(n, concurrency);
    Pool(k, seq(k, i => Some(i)), Range(k), [], [])
  }

  /** The item of a lane completes, normally or by an error that is logged; the lane goes on. */
  function Complete(p: Pool, n: nat, lane: nat, ok: bool): Pool
    requires lane < |p.lanes| && p.lanes[lane].Some?
  {
    var item := p.lanes[lane].value;
    var q := p.(completed := p.completed + [item], failed := if ok then p.failed else p.failed + [item]);
    if p.index < n
    then q.(index := p.index + 1, lanes := p.lanes[lane := Some(p.index)], started := p.started + [p.index])
    else q.(lanes := p.lanes[lane := None])
  }

  predicate Stopped(lanes: seq<Option<nat>>) { forall k :: 0 <= k < |lanes| ==> lanes[k].None? }

  predicate Finished(p: Pool) { Stopped(p.lanes) }

  /** A run of the pool: which lane completes next, and whether its item failed. */
  predicate Schedule(p: Pool, n: nat, events: seq<(nat, bool)>)
    decreases |events|
  {
    events != [] ==>
      && events[0].0 < |p.lanes| && p.lanes[events[0].0].Some?
      && Schedule(Complete(p, n, events[0].0, events[0].1), n, events[1..])
  }

  function Run(p: Pool, n: nat, events: seq<(nat, bool)>): Pool
    requires Schedule(p, n, events)
    decreases |events|
  {
    if events == [] then p else Run(Complete(p, n, events[0].0, events[0].1), n, events[1..])
  }

  function Item(x: Option<nat>): multiset<nat> { if x.Some? then multiset{x.value} else multiset{} }

  /** The items in flight. */
  function InFlight(lanes: seq<Option<nat>>): multiset<nat> {
    if lanes == [] then multiset{} else InFlight(lanes[..|lanes| - 1]) + Item(lanes[|lanes| - 1])
  }

  lemma Swap(a: multiset<nat>, b: multiset<nat>, c: multiset<nat>, d: multiset<nat>, e: multiset<nat>)
    requires a + b == c + d
    ensures (a + e) + b == (c + e) + d
  {
    forall x ensures ((a + e) + b)[x] == ((c + e) + d)[x] {
      assert (a + b)[x] == (c + d)[x];
    }
  }

  lemma {:induction false} InFlightUpdate(lanes: seq<Option<nat>>, k: nat, x: Option<nat>)
    requires k < |lanes|
    ensures InFlight(lanes[k := x]) + Item(lanes[k]) == InFlight(lanes) + Item(x)
    decreases |lanes|
  {
    hide Item;
    var n := |lanes| - 1;
    if k < n {
      assert lanes[k := x][..n] == lanes[..n][k := x];
      InFlightUpdate(lanes[..n], k, x);
      Swap(InFlight(lanes[..n][k := x]), Item(lanes[k]), InFlight(lanes[..n]), Item(x), Item(lanes[n]));
    } else {
      assert lanes[k := x][..n] == lanes[..n];
    }
  }

  function Busy(lanes: seq<Option<nat>>): nat {
    if lanes == [] then 0 else Busy(lanes[..|lanes| - 1]) + if lanes[|lanes| - 1].Some? then 1 else 0
  }

  lemma {:induction false} BusyBounds(lanes: seq<Option<nat>>)
    ensures Busy(lanes) <= |lanes|
    ensures (forall k :: 0 <= k < |lanes| ==> lanes[k].Some?) ==> Busy(lanes) == |lanes|
    ensures Busy(lanes) == 0 <==> Stopped(lanes)
    decreases |lanes|
  {
    if lanes != [] {
      var n := |lanes| - 1;
      BusyBounds(lanes[..n]);
      assert forall k :: 0 <= k < n ==> lanes[..n][k] == lanes[k];
    }
  }

  lemma {:induction false} InFlightSize(lanes: seq<Option<nat>>)
    ensures |InFlight(lanes)| == Busy(lanes)
    decreases |lanes|
  {
    if lanes != [] { InFlightSize(lanes[..|lanes| - 1]); }
  }

  /** Started items are the first `index`, each once; each is completed or in flight; lanes stop last. */
  predicate Inv(p: Pool, n: nat, concurrency: int) {
    && p.index <= n && |p.lanes| == LaneCount(n, concurrency)
    && p.started == Range(p.index)
    && multiset(p.completed) + InFlight(p.lanes) == multiset(Range(p.index))
    && (p.index < n ==> forall k :: 0 <= k < |p.lanes| ==> p.lanes[k].Some?)
  }

  lemma RangeSnoc(k: nat)
    ensures Range(k + 1) == Range(k) + [k]
  {}

  lemma {:induction false} StartInFlight(k: nat)
    ensures InFlight(seq(k, i => Some(i))) == multiset(Range(k))
  {
    if k > 0 {
      var lanes: seq<Option<nat>> := seq(k, i => Some(i));
      assert lanes[..k - 1] == seq(k - 1, i => Some(i));
      StartInFlight(k - 1);
      RangeSnoc(k - 1);
    }
  }

  lemma StartInv(n: nat, concurrency: int)
    ensures Inv(Start(n, concurrency), n, concurrency)
  {
    StartInFlight(LaneCount(n, concurrency));
  }

  lemma ItemIs(x: nat)
    ensures Item(Some(x)) == multiset{x} && Item(None) == multiset{}
  {}

  lemma Conserve(done: multiset<nat>, flight: multiset<nat>, all: multiset<nat>,
                 item: multiset<nat>, next: multiset<nat>, later: multiset<nat>)
    requires done + flight == all && later + item == flight + next
    ensures (done + item) + later == all + next
  {
    forall x ensures ((done + item) + later)[x] == (all + next)[x] {
      assert (done + flight)[x] == all[x] && (later + item)[x] == (flight + next)[x];
    }
  }

  lemma CompleteConserves(p: Pool, n: nat, lane: nat, ok: bool)
    requires lane < |p.lanes| && p.lanes[lane].Some?
    requires multiset(p.completed) + InFlight(p.lanes) == multiset(Range(p.index))
    ensures var q := Complete(p, n, lane, ok);
            multiset(q.completed) + InFlight(q.lanes) == multiset(Range(q.index))
  {
    hide InFlight, Item, Range;
    var q := Complete(p, n, lane, ok);
    var next := if p.index < n then Some(p.index) else None;
    InFlightUpdate(p.lanes, lane, next);
    RangeSnoc(p.index);
    assert multiset(q.completed) == multiset(p.completed) + Item(p.lanes[lane]) by { ItemIs(p.lanes[lane].value); }
    assert multiset(Range(q.index)) == multiset(Range(p.index)) + Item(next) by { ItemIs(p.index); }
    Conserve(multiset(p.completed), InFlight(p.lanes), multiset(Range(p.index)),
             Item(p.lanes[lane]), Item(next), InFlight(q.lanes));
  }

  lemma CompleteKeepsInv(p: Pool, n: nat, concurrency: int, lane: nat, ok: bool)
    requires Inv(p, n, concurrency) && lane < |p.lanes| && p.lanes[lane].Some?
    ensures Inv(Complete(p, n, lane, ok), n, concurrency)
    ensures |Complete(p, n, lane, ok).completed| == |p.completed| + 1
  {
    hide InFlight;
    CompleteConserves(p, n, lane, ok);
    RangeSnoc(p.index);
  }

  lemma {:induction false} RunKeepsInv(p: Pool, n: nat, concurrency: int, events: seq<(nat, bool)>)
    requires Inv(p, n, concurrency) && Schedule(p, n, events)
    ensures Inv(Run(p, n, events), n, concurrency)
    ensures |Run(p, n, events).completed| == |p.completed| + |events|
    decreases |events|
  {
    if events != [] {
      CompleteKeepsInv(p, n, concurrency, events[0].0, events[0].1);
      RunKeepsInv(Complete(p, n, events[0].0, events[0].1), n, concurrency, events[1..]);
    }
  }

  /**
   * For every number of items, concurrency and completion order, with failures anywhere: items start
   * in order and each once; the number in flight is exactly the smaller of the lanes and the items
   * not completed; after n completions, and only then, the pool has finished with every item done.
   */
  lemma PoolOverRuns(n: nat, concurrency: int, events: seq<(nat, bool)>)
    requires Schedule(Start(n, concurrency), n, events) && (concurrency >= 1 || n == 0)
    ensures var p := Run(Start(n, concurrency), n, events);
            && p.started == Range(p.index) && p.index <= n
            && |events| <= n
            && |InFlight(p.lanes)| == Min(LaneCount(n, concurrency), n - |events|)
            && (Finished(p) <==> |events| == n)
            && (Finished(p) ==> p.started == Range(n) && multiset(p.completed) == multiset(Range(n)))
  {
    var p := Run(Start(n, concurrency), n, events);
    StartInv(n, concurrency);
    RunKeepsInv(Start(n, concurrency), n, concurrency, events);
    InFlightSize(p.lanes);
    BusyBounds(p.lanes);
    assert |multiset(p.completed) + InFlight(p.lanes)| == |events| + |InFlight(p.lanes)|;
    assert |multiset(Range(p.index))| == p.index;
  }

  ghost predicate FinishesAll(n: nat, concurrency: int) {
    forall events :: Schedule(Start(n, concurrency), n, events) ==>
      var p := Run(Start(n, concurrency), n, events);
      Finished(p) ==> multiset(p.completed) == multiset(Range(n))
  }

  /** The pool finishes only with every item done exactly when it has a lane or nothing to do. */
  lemma FinishesAllExactly(n: nat, concurrency: int)
    ensures FinishesAll(n, concurrency) <==> concurrency >= 1 || n == 0
  {
    var start := Start(n, concurrency);
    if concurrency >= 1 || n == 0 {
      forall events | Schedule(start, n, events)
        ensures Finished(Run(start, n, events)) ==> multiset(Run(start, n, events).completed) == multiset(Range(n))
      {
        PoolOverRuns(n, concurrency, events);
      }
    } else {
      var none: seq<(nat, bool)> := [];
      assert Schedule(start, n, none) && Run(start, n, none) == start && Finished(start);
      assert |multiset(start.completed)| != |multiset(Range(n))| == n;
    }
  }

  lemma CompletedBounded(p: Pool, n: nat, concurrency: int)
    requires Inv(p, n, concurrency)
    ensures |p.completed| + |InFlight(p.lanes)| == p.index
  {
    assert |multiset(p.completed) + InFlight(p.lanes)| == |p.completed| + |InFlight(p.lanes)|;
    assert |multiset(Range(p.index))| == p.index;
  }

  lemma StoppedIsDone(p: Pool, n: nat, concurrency: int)
    requires Inv(p, n, concurrency) && Stopped(p.lanes) && (concurrency >= 1 || n == 0)
    ensures p.started == Range(n) && multiset(p.completed) == multiset(Range(n))
  {
    InFlightSize(p.lanes);
    BusyBounds(p.lanes);
    assert InFlight(p.lanes) == multiset{};
  }

  ghost predicate FailedAre(p: Pool, fails: set<nat>) { forall i :: i in p.failed <==> i in p.completed && i in fails }

  lemma IndexBounded(p: Pool, n: nat, concurrency: int)
    requires Inv(p, n, concurrency)
    ensures p.index <= n
  {}

  /** The pool itself; which lane completes next is left open. */
  method RunWithConcurrency(n: nat, concurrency: int, fails: set<nat>)
    returns (started: seq<nat>, completed: seq<nat>, failed: seq<nat>)
    ensures concurrency >= 1 || n == 0 ==> started == Range(n) && multiset(completed) == multiset(Range(n))
    ensures concurrency < 1 ==> started == [] && completed == []
    ensures forall i :: i in failed <==> i in completed && i in fails
  {
    hide Inv, InFlight;
    var p := Start(n, concurrency);
    StartInv(n, concurrency);
    while !Stopped(p.lanes)
      invariant Inv(p, n, concurrency) && FailedAre(p, fails)
      invariant concurrency < 1 ==> p == Start(n, concurrency)
      decreases n - |p.completed|
    {
      var lane: nat :| lane < |p.lanes| && p.lanes[lane].Some?;
      var ok := p.lanes[lane].value !in fails;
      CompleteKeepsInv(p, n, concurrency, lane, ok);
      p := Complete(p, n, lane, ok);
      CompletedBounded(p, n, concurrency);
      IndexBounded(p, n, concurrency);
    }
    if concurrency >= 1 || n == 0 { StoppedIsDone(p, n, concurrency); }
    return p.started, p.completed, p.failed;
  }
}
