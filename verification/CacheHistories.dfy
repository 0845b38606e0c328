/**
 * Whole histories of the in-memory cache against an unbounded TTL map, and what a sweep can change.
 *
 * Models src/cache/cache.service.ts without Redis.
 */
module CacheHistories {
  import opened EscrowTables
  import opened MemoryCache
  import DecimalText

  lemma {:induction false} LatestKey(ops: seq<Op>, k: Key)
    ensures Latest(ops, k).Some? ==> Latest(ops, k).value.key == k
    decreases |ops|
  {
    if ops != [] { LatestKey(ops[..|ops| - 1], k); }
  }

  // ── Eviction spares what is alive ─────────────────────────────────────────

  /** An entry left out of part of a map takes its key with it. */
  lemma OwnKey(m: Memory, part: Memory, x: Entry)
    requires Unique(m) && x in m && x !in part && forall e :: e in part ==> e in m
    ensures x.key !in Keys(part)
  {
    forall e | e in part ensures e.key != x.key {
      if e.key == x.key { SameEntry(m, e, x); }
    }
  }

  /** While no more entries are alive than fit, eviction takes expired ones only. */
  lemma LiveKept(m: Memory, now: Time, x: Entry)
    requires Unique(m) && |Live(m, now)| <= 1000 && x in m && now <= x.expiresAt
    ensures x in Evict(m)
  {
    hide Evict, Live, Unique;
    var kept := Evict(m);
    EvictExactly(m);
    LiveOnly(m, now);
    if x !in kept {
      CardKeys(kept);
      CardKeys(Live(m, now));
      assert x.key !in Keys(kept) by { OwnKey(m, kept, x); }
      assert Keys(kept) + {x.key} <= Keys(Live(m, now));
      Subset(Keys(kept) + {x.key}, Keys(Live(m, now)));
      assert false;
    }
  }

  // ── Agreement with a TTL map ──────────────────────────────────────────────

  /** The keys whose latest write has not expired. */
  function LiveKeys(ops: seq<Op>, now: Time): set<Key> {
    set k | k in SetKeys(ops) && Latest(ops, k).Some? && now <= Latest(ops, k).value.expiresAt
  }

  /** After every `set`, no more keys are alive than the cache can hold. */
  predicate Roomy(ops: seq<Op>) {
    ops != [] ==>
      var op := ops[|ops| - 1];
      Roomy(ops[..|ops| - 1]) && (op.Set? ==> |LiveKeys(ops, op.now)| <= 1000)
  }

  /** What is alive in the map a `set` leaves before evicting has a live key. */
  lemma LivePut(ops: seq<Op>, init: seq<Op>, op: Op)
    requires ops == init + [op] && op.Set?
    ensures Unique(Put(Run(init), Written(op)))
    ensures |Live(Put(Run(init), Written(op)), op.now)| <= |LiveKeys(ops, op.now)|
  {
    hide Put, Live, Unique, Run;
    var m := Run(init);
    var put := Put(m, Written(op));
    HeldIsLatest(init);
    PutOnly(m, Written(op));
    LiveOnly(put, op.now);
    var live := Live(put, op.now);
    CardKeys(live);
    assert ops[..|ops| - 1] == init && op in ops;
    forall e | e in live ensures e.key in LiveKeys(ops, op.now) {
      if e != Written(op) { assert Latest(ops, e.key) == Latest(init, e.key); }
    }
    Subset(Keys(live), LiveKeys(ops, op.now));
  }

  lemma SetLosesNothing(ops: seq<Op>, init: seq<Op>, op: Op, x: Entry)
    requires ops == init + [op] && op.Set? && |LiveKeys(ops, op.now)| <= MAX_MEMORY_ENTRIES
    requires x == Written(op) || (x in Run(init) && x.key != op.key)
    requires op.now <= x.expiresAt
    ensures x in Step(Run(init), op)
  {
    hide Evict, Put, Live, Run;
    LivePut(ops, init, op);
    HeldIsLatest(init);
    PutOnly(Run(init), Written(op));
    LiveKept(Put(Run(init), Written(op)), op.now, x);
  }

  /** While there is room for what is alive, nothing is lost before it expires. */
  lemma {:induction false} NothingLostEarly(ops: seq<Op>, now: Time, k: Key)
    requires Clocked(ops, now) && Roomy(ops)
    ensures var e := Latest(ops, k); e.Some? && now <= e.value.expiresAt ==> e.value in Run(ops)
    decreases |ops|
  {
    hide Evict, Put, Live, Del, LiveKeys;
    if ops != [] {
      var init, op := ops[..|ops| - 1], ops[|ops| - 1];
      assert ops == init + [op];
      HeldIsLatest(init);
      NothingLostEarly(init, if op.Remove? then now else op.now, k);
      LatestKey(init, k);
      var m, e := Run(init), Latest(ops, k);
      match op
      case Set(_, _, _, _) =>
        if e.Some? && now <= e.value.expiresAt { SetLosesNothing(ops, init, op, e.value); }
      case Remove(r) => DelOnly(m, r);
      case Get(r, at) =>
        DelOnly(m, r);
        if Latest(init, k).Some? && Latest(init, k).value in m { LookupOf(m, Latest(init, k).value); }
      case Sweep(at) => LiveOnly(m, at);
    }
  }

  /** Under a clock that never goes back, while there is room for what is alive, the cache is the TTL map. */
  lemma AgreesWithTtlMap(ops: seq<Op>, k: Key, now: Time)
    requires Clocked(ops, now) && Roomy(ops)
    ensures Lookup(Run(ops), k, now) == TtlGet(ops, k, now)
  {
    hide Run, Roomy, Clocked;
    HeldIsLatest(ops);
    NothingLostEarly(ops, now, k);
    var e := Latest(ops, k);
    if e.Some? && now <= e.value.expiresAt {
      LatestKey(ops, k);
      LookupOf(Run(ops), e.value);
    } else if Lookup(Run(ops), k, now).Some? {
      HitIsLatest(ops, k, now);
    }
  }

  /** At every point of a history, every `get` that could follow is that of the TTL map. */
  ghost predicate AlwaysAgrees(ops: seq<Op>) {
    forall i, k, now | 0 <= i <= |ops| && Clocked(ops[..i], now) ::
      Lookup(Run(ops[..i]), k, now) == TtlGet(ops[..i], k, now)
  }

  lemma {:induction false} RoomyPrefix(ops: seq<Op>, i: nat)
    requires Roomy(ops) && i <= |ops|
    ensures Roomy(ops[..i])
    decreases |ops|
  {
    if i == |ops| {
      assert ops[..i] == ops;
    } else {
      assert ops[..|ops| - 1][..i] == ops[..i];
      RoomyPrefix(ops[..|ops| - 1], i);
    }
  }

  /** More live keys than the cache can hold: one of them misses at once. */
  lemma OverflowMisses(ops: seq<Op>, now: Time)
    requires |LiveKeys(ops, now)| > MAX_MEMORY_ENTRIES
    ensures exists k :: Lookup(Run(ops), k, now) != TtlGet(ops, k, now)
  {
    hide Run, Latest;
    HeldIsLatest(ops);
    var m := Run(ops);
    CardKeys(m);
    if LiveKeys(ops, now) <= Keys(m) { Subset(LiveKeys(ops, now), Keys(m)); }
    var k :| k in LiveKeys(ops, now) && k !in Keys(m);
    assert Find(m, k).None?;
    assert Lookup(m, k, now) != TtlGet(ops, k, now);
  }

  lemma {:induction false} AgreementNeedsRoom(ops: seq<Op>, now: Time)
    requires Clocked(ops, now) && AlwaysAgrees(ops)
    ensures Roomy(ops)
    decreases |ops|
  {
    hide LiveKeys, Run, TtlGet, Lookup;
    if ops != [] {
      var init, op := ops[..|ops| - 1], ops[|ops| - 1];
      forall i, k, t | 0 <= i <= |init| && Clocked(init[..i], t)
        ensures Lookup(Run(init[..i]), k, t) == TtlGet(init[..i], k, t)
      {
        assert ops[..i] == init[..i];
      }
      AgreementNeedsRoom(init, if op.Remove? then now else op.now);
      assert ops[..|ops|] == ops;
      if op.Set? && |LiveKeys(ops, op.now)| > MAX_MEMORY_ENTRIES {
        OverflowMisses(ops, op.now);
        assert false;
      }
    }
  }

  /**
   * Under a clock that never goes back, the cache answers like the TTL map throughout a history
   * exactly when, after every `set`, no more keys are alive than it can hold.
   */
  lemma AgreesExactly(ops: seq<Op>, now: Time)
    requires Clocked(ops, now)
    ensures AlwaysAgrees(ops) <==> Roomy(ops)
  {
    if Roomy(ops) {
      forall i, k, t | 0 <= i <= |ops| && Clocked(ops[..i], t)
        ensures Lookup(Run(ops[..i]), k, t) == TtlGet(ops[..i], k, t)
      {
        RoomyPrefix(ops, i);
        AgreesWithTtlMap(ops[..i], k, t);
      }
    } else if AlwaysAgrees(ops) {
      AgreementNeedsRoom(ops, now);
    }
  }

  // ── Sweeping ──────────────────────────────────────────────────────────────

  /** A sweep changes no `get` at the same time or later. */
  lemma SweepKeepsGets(m: Memory, now: Time, later: Time, k: Key)
    requires Unique(m) && now <= later
    ensures Lookup(Live(m, now), k, later) == Lookup(m, k, later)
  {
    hide Live;
    var swept := Live(m, now);
    LiveOnly(m, now);
    if Find(swept, k).Some? { LookupOf(m, Find(swept, k).value); }
  }

  /** The two maps hold the same entries that are alive at `t`. */
  ghost predicate SameLive(m: Memory, n: Memory, t: Time) { forall e: Entry | t <= e.expiresAt :: e in m <==> e in n }

  /** Eviction draws its line between two live entries that expire together. */
  ghost predicate CutTie(m: Memory, t: Time) {
    exists x, y | x in m && y in m :: x !in Evict(m) && y in Evict(m) && t <= x.expiresAt == y.expiresAt
  }

  lemma {:induction false} UniqueSet(m: Memory)
    requires Unique(m)
    ensures |set e | e in m| == |m|
    decreases |m|
  {
    hide Unique;
    if m != [] {
      UniqueTail(m);
      UniqueSet(m[1..]);
      assert (set e | e in m) == (set e | e in m[1..]) + {m[0]};
    }
  }

  /** Two parts of equal size, or the second larger: what the first has alone, the second makes up for. */
  lemma Counterpart(a: Memory, b: Memory, y: Entry) returns (x: Entry)
    requires Unique(a) && Unique(b) && |a| <= |b| && y in a && y !in b
    ensures x in b && x !in a
  {
    UniqueSet(a);
    UniqueSet(b);
    var sa, sb := set e | e in a, set e | e in b;
    if sb <= sa {
      Subset(sb + {y}, sa);
      assert false;
    }
    x :| x in sb && x !in sa;
  }

  /** Half of the comparison: a live entry kept on one side only comes with a tie. */
  lemma KeptOnOneSide(m: Memory, n: Memory, t: Time, y: Entry) returns (x: Entry)
    requires Unique(m) && Unique(n) && SameLive(m, n, t)
    requires t <= y.expiresAt && y in Evict(m) && y !in Evict(n)
    ensures x in m && x !in Evict(m) && x in Evict(n) && y in m && x.expiresAt == y.expiresAt
  {
    hide Evict, Unique;
    EvictExactly(m);
    EvictExactly(n);
    x := Counterpart(Evict(m), Evict(n), y);
    assert y in n && x in n && y.expiresAt <= x.expiresAt;
  }

  /** Without a tie at the line, the live entries alone decide which of them survive an eviction. */
  lemma EvictSameLive(m: Memory, n: Memory, t: Time)
    requires Unique(m) && Unique(n) && SameLive(m, n, t) && !CutTie(m, t)
    ensures SameLive(Evict(m), Evict(n), t)
  {
    hide Evict, Unique;
    forall e: Entry | t <= e.expiresAt ensures e in Evict(m) <==> e in Evict(n) {
      if e in Evict(m) && e !in Evict(n) {
        var x := KeptOnOneSide(m, n, t, e);
        assert false;
      } else if e in Evict(n) && e !in Evict(m) {
        var y := KeptOnOneSide(n, m, t, e);
        EvictExactly(m);
        assert false;
      }
    }
  }

  lemma SwapOrdered(s: Memory, i: nat, j: nat)
    requires Ordered(s) && Unique(s) && i < j < |s| && s[i].expiresAt == s[j].expiresAt
    ensures var n := s[i := s[j]][j := s[i]];
            Ordered(n) && Unique(n) && |n| == |s| && forall e :: e in n <==> e in s
  {
    var n := s[i := s[j]][j := s[i]];
    forall e ensures e in n <==> e in s {
      if e in s {
        var k :| 0 <= k < |s| && s[k] == e;
        assert n[if k == i then j else if k == j then i else k] == e;
      }
      if e in n {
        var k :| 0 <= k < |n| && n[k] == e;
        assert s[if k == i then j else if k == j then i else k] == e;
      }
    }
  }

  lemma SplitKeys(s: Memory, n: nat, g: Entry, e: Entry)
    requires Unique(s) && n <= |s| && g in s[..n] && e in s[n..]
    ensures g.key != e.key
  {
    var i :| 0 <= i < n && s[i] == g;
    var j :| 0 <= j < |s| - n && s[n..][j] == e;
    assert s[n + j] == e;
  }

  /** An ordered map loses its first entries. */
  lemma EvictOrdered(s: Memory, e: Entry)
    requires Ordered(s) && Unique(s) && e in s
    ensures e in Evict(s) <==> e in s[Surplus(s)..]
  {
    hide DelAll;
    SortKeepsOrder(s);
    var n := Surplus(s);
    var gone := s[..n];
    assert s == gone + s[n..];
    DelAllOnly(s, gone);
    if e in gone { assert e.key in Keys(gone); }
    if e in s[n..] {
      forall g | g in gone ensures g.key != e.key { SplitKeys(s, n, g, e); }
    }
  }

  lemma SameMembers(m: Memory, s: Memory)
    requires multiset(m) == multiset(s)
    ensures forall e :: e in s <==> e in m
  {
    forall e ensures e in s <==> e in m { assert e in s <==> e in multiset(s); assert e in m <==> e in multiset(m); }
  }

  /** In the sorted map an evicted entry stands before the line, a kept one behind it. */
  lemma SortedPlaces(m: Memory, x: Entry, y: Entry) returns (i: nat, j: nat)
    requires Unique(m) && x in m && x !in Evict(m) && y in Evict(m)
    ensures var s := SortByExpiry(m); i < Surplus(m) <= j < |s| && s[i] == x && s[j] == y
  {
    hide DelAll, SortByExpiry;
    var s, c := SortByExpiry(m), Surplus(m);
    SortOrders(m);
    UniqueIsMultiset(m, s);
    SameMembers(m, s);
    var gone := Evicted(m);
    assert gone == s[..c];
    DelAllOnly(m, gone);
    var g :| g in gone && g.key == x.key;
    SameEntry(m, g, x);
    i :| 0 <= i < c && s[i] == x;
    j :| 0 <= j < |s| && s[j] == y;
    assert c <= j;
  }

  /** A tie at the line is broken by the order of the map: in another order, another entry survives. */
  lemma TieDependsOnOrder(m: Memory, t: Time, x: Entry, y: Entry) returns (n: Memory)
    requires Unique(m) && x in m && x !in Evict(m) && y in Evict(m) && t <= x.expiresAt == y.expiresAt
    ensures Unique(n) && SameLive(m, n, t) && !SameLive(Evict(m), Evict(n), t)
  {
    hide Evict, DelAll, Unique, Ordered;
    var s, c := SortByExpiry(m), Surplus(m);
    SortOrders(m);
    UniqueIsMultiset(m, s);
    EvictExactly(m);
    assert forall e :: e in s <==> e in m by { SameMembers(m, s); }
    var i, j := SortedPlaces(m, x, y);
    SwapOrdered(s, i, j);
    n := s[i := y][j := x];
    EvictOrdered(n, x);
    assert n[c..][j - c] == x;
  }

  /**
   * Which live entries survive an eviction is decided by the live entries alone, whatever expired ones
   * the map still holds and whatever order it is in, exactly when the line meets no tie.
   */
  lemma SurvivorsExactly(m: Memory, t: Time)
    requires Unique(m)
    ensures (forall n :: Unique(n) && SameLive(m, n, t) ==> SameLive(Evict(m), Evict(n), t)) <==> !CutTie(m, t)
  {
    hide Evict, Unique, SameLive;
    if CutTie(m, t) {
      var x, y :| x in m && y in m && x !in Evict(m) && y in Evict(m) && t <= x.expiresAt == y.expiresAt;
      var n := TieDependsOnOrder(m, t, x, y);
    } else {
      forall n | Unique(n) && SameLive(m, n, t) ensures SameLive(Evict(m), Evict(n), t) { EvictSameLive(m, n, t); }
    }
  }

  /** No `set` of `b`, after `a`, evicts at a tie. */
  ghost predicate TieFree(a: seq<Op>, b: seq<Op>)
    decreases |b|
  {
    b != [] ==>
      var init, op := b[..|b| - 1], b[|b| - 1];
      TieFree(a, init) && (op.Set? ==> !CutTie(Put(Run(a + init), Written(op)), op.now))
  }

  lemma GetKeepsLive(m: Memory, k: Key, t: Time)
    requires Unique(m)
    ensures SameLive(m, Step(m, Get(k, t)), t)
  {
    hide Del, Unique;
    DelOnly(m, k);
    forall e: Entry | t <= e.expiresAt ensures e in m <==> e in Step(m, Get(k, t)) {
      if e in m && e.key == k { LookupOf(m, e); }
    }
  }

  /** One operation on two maps with the same live entries. */
  lemma StepSameLive(m: Memory, n: Memory, op: Op, t: Time)
    requires Unique(m) && Unique(n) && SameLive(m, n, t) && (!op.Remove? ==> t == op.now)
    requires op.Set? ==> !CutTie(Put(m, Written(op)), t)
    ensures SameLive(Step(m, op), Step(n, op), t)
  {
    hide Evict, Put, Del, Live, Unique, CutTie;
    match op
    case Set(_, _, _, _) =>
      PutOnly(m, Written(op));
      PutOnly(n, Written(op));
      EvictSameLive(Put(m, Written(op)), Put(n, Written(op)), t);
    case Remove(k) =>
      DelOnly(m, k);
      DelOnly(n, k);
    case Get(k, _) =>
      DelOnly(m, k);
      DelOnly(n, k);
      GetKeepsLive(m, k, t);
      GetKeepsLive(n, k, t);
    case Sweep(_) =>
      LiveOnly(m, t);
      LiveOnly(n, t);
  }

  lemma SweepStep(m: Memory, at: Time)
    ensures Step(m, Sweep(at)) == Live(m, at)
  {}

  lemma {:induction false} SweptSameLive(a: seq<Op>, at: Time, b: seq<Op>, now: Time)
    requires Clocked(a + [Sweep(at)] + b, now) && TieFree(a, b)
    ensures SameLive(Run(a + b), Run(a + [Sweep(at)] + b), now)
    decreases |b|
  {
    hide Evict, Put, Del, Live, Unique, CutTie, Step;
    var plain, swept := a + b, a + [Sweep(at)] + b;
    if b == [] {
      assert plain == a && swept[..|swept| - 1] == a;
      HeldIsLatest(a);
      LiveOnly(Run(a), at);
      SweepStep(Run(a), at);
    } else {
      var n := |b| - 1;
      var init, op := b[..n], b[n];
      assert plain[..|plain| - 1] == a + init && swept[..|swept| - 1] == a + [Sweep(at)] + init;
      var t := if op.Remove? then now else op.now;
      SweptSameLive(a, at, init, t);
      HeldIsLatest(a + init);
      HeldIsLatest(a + [Sweep(at)] + init);
      StepSameLive(Run(a + init), Run(a + [Sweep(at)] + init), op, t);
    }
  }

  /**
   * A sweep at any point of a history, with any number of keys, changes no later `get` as long as no
   * later `set` evicts at a tie between live entries.
   */
  lemma SweepIsInvisible(a: seq<Op>, at: Time, b: seq<Op>, k: Key, now: Time)
    requires Clocked(a + [Sweep(at)] + b, now) && TieFree(a, b)
    ensures Lookup(Run(a + [Sweep(at)] + b), k, now) == Lookup(Run(a + b), k, now)
  {
    hide Run, TieFree, Clocked, Unique;
    SweptSameLive(a, at, b, now);
    HeldIsLatest(a + b);
    HeldIsLatest(a + [Sweep(at)] + b);
    var m, n := Run(a + b), Run(a + [Sweep(at)] + b);
    if Find(m, k).Some? && now <= Find(m, k).value.expiresAt { LookupOf(n, Find(m, k).value); }
    if Find(n, k).Some? && now <= Find(n, k).value.expiresAt { LookupOf(m, Find(n, k).value); }
  }

  /** There is no such tie while there is room for what is alive. */
  lemma {:induction false} RoomyIsTieFree(a: seq<Op>, b: seq<Op>)
    requires Roomy(a + b)
    ensures TieFree(a, b)
    decreases |b|
  {
    hide Evict, Put, Live, LiveKeys, Run, Unique;
    if b != [] {
      var n, all := |b| - 1, a + b;
      var init, op := b[..n], b[n];
      assert all[..|all| - 1] == a + init && all == a + init + [op];
      RoomyIsTieFree(a, init);
      if op.Set? {
        LivePut(all, a + init, op);
        var put := Put(Run(a + init), Written(op));
        forall x | x in put && op.now <= x.expiresAt ensures x in Evict(put) { LiveKept(put, op.now, x); }
      }
    }
  }

  // ── A tie ─────────────────────────────────────────────────────────────────

  /** Entries of distinct keys that all expire at `at`. */
  function Fillers(n: nat, at: Time): Memory { seq(n, i requires 0 <= i < n => Entry(DecimalText.Print(i), "", at)) }

  lemma FillersUnique(n: nat, at: Time)
    ensures Unique(Fillers(n, at)) && Ordered(Fillers(n, at)) && |Fillers(n, at)| == n
    ensures forall e :: e in Fillers(n, at) ==> e.expiresAt == at && e.key != "a" && e.key != "b"
  {
    forall i | 0 <= i < n ensures DecimalText.Print(i) != "a" && DecimalText.Print(i) != "b" {
      DecimalText.ParsePrint(i);
    }
    forall i, j | 0 <= i < j < n ensures DecimalText.Print(i) != DecimalText.Print(j) {
      DecimalText.ParsePrint(i);
      DecimalText.ParsePrint(j);
    }
  }

  lemma {:induction false} PutNew(m: Memory, e: Entry)
    requires forall x :: x in m ==> x.key != e.key
    ensures Put(m, e) == m + [e]
    decreases |m|
  {
    if m != [] { PutNew(m[1..], e); }
  }

  lemma PutHead(m: Memory, x: Entry, e: Entry)
    requires x.key == e.key
    ensures Put([x] + m, e) == [e] + m
  {
    assert ([x] + m)[1..] == m;
  }

  lemma {:induction false} LiveAll(m: Memory, now: Time)
    requires forall x :: x in m ==> now <= x.expiresAt
    ensures Live(m, now) == m
    decreases |m|
  {
    if m != [] { LiveAll(m[1..], now); }
  }

  /** One entry too many, all expiring together: the first in the map goes. */
  lemma EvictFirst(m: Memory)
    requires Ordered(m) && |m| == MAX_MEMORY_ENTRIES + 1
    ensures Evict(m) == m[1..]
  {
    SortKeepsOrder(m);
    assert Evicted(m) == [m[0]];
    assert DelAll(m, [m[0]]) == Del(m, m[0].key) by { NoneGone(Del(m, m[0].key)); }
  }

  /** One `set` for each filler. */
  function FillerOps(n: nat): seq<Op> { seq(n, i requires 0 <= i < n => Set(DecimalText.Print(i), "", 60, 1)) }

  /** "a", which expires at once, and then `n` other keys. */
  function Filling(n: nat): seq<Op> { [Set("a", "old", 0, 0)] + FillerOps(n) }

  lemma LastIsNew(m: Memory, e: Entry)
    requires Unique(m + [e])
    ensures forall x :: x in m ==> x.key != e.key
  {
    forall x | x in m ensures x.key != e.key {
      var i :| 0 <= i < |m| && m[i] == x;
      assert (m + [e])[i] == x && (m + [e])[|m|] == e;
    }
  }

  lemma NoEviction(m: Memory)
    requires Unique(m) && |m| <= MAX_MEMORY_ENTRIES
    ensures Evict(m) == m
  {
    EvictExactly(m);
  }

  lemma {:induction false} RunFilling(n: nat)
    requires n < MAX_MEMORY_ENTRIES
    ensures Run(Filling(n)) == [Entry("a", "old", 0)] + Fillers(n, 60001)
    decreases n
  {
    hide Evict, Put, Unique;
    var stale := Entry("a", "old", 0);
    if n == 0 {
      var ops := Filling(0);
      assert ops == [Set("a", "old", 0, 0)] && ops[..0] == [];
      PutNew([], stale);
      UniqueOne(stale);
      NoEviction([stale]);
      assert [] + [stale] == [stale] && [stale] + Fillers(0, 60001) == [stale];
    } else {
      var ops, last := Filling(n), Entry(DecimalText.Print(n - 1), "", 60001);
      assert ops[..|ops| - 1] == Filling(n - 1);
      RunFilling(n - 1);
      FillersUnique(n, 60001);
      FillersUnique(n - 1, 60001);
      var before := [stale] + Fillers(n - 1, 60001);
      assert [stale] + Fillers(n, 60001) == before + [last];
      UniqueCons(Fillers(n, 60001), stale);
      assert before + [last] == [stale] + Fillers(n, 60001);
      LastIsNew(before, last);
      PutNew(before, last);
      NoEviction(before + [last]);
    }
  }

  lemma OneMore(ops: seq<Op>, op: Op)
    ensures Run(ops + [op]) == Step(Run(ops), op)
  {
    assert (ops + [op])[..|ops|] == ops;
  }

  lemma TwoMore(ops: seq<Op>, op: Op, last: Op)
    ensures Run(ops + [op, last]) == Step(Step(Run(ops), op), last)
  {
    assert ops + [op, last] == ops + [op] + [last];
    OneMore(ops, op);
    OneMore(ops + [op], last);
  }

  lemma {:induction false} ClockedFilling(n: nat)
    ensures Clocked(Filling(n), 1)
  {
    var ops := Filling(n);
    if n == 0 {
      assert ops[..0] == [];
    } else {
      assert ops[..|ops| - 1] == Filling(n - 1);
      ClockedFilling(n - 1);
    }
  }

  lemma ClockedSnoc(ops: seq<Op>, op: Op)
    requires Clocked(ops, 1) && !op.Remove? && op.now == 1
    ensures Clocked(ops + [op], 1)
  {
    assert (ops + [op])[..|ops|] == ops;
  }

  lemma ClockedMore(ops: seq<Op>, op: Op, last: Op)
    requires Clocked(ops, 1) && op.Set? && last.Set? && op.now == last.now == 1
    ensures Clocked(ops + [op, last], 1) && Clocked(ops + [Sweep(1)] + [op, last], 1)
  {
    ClockedSnoc(ops, op);
    ClockedSnoc(ops + [op], last);
    ClockedSnoc(ops, Sweep(1));
    ClockedSnoc(ops + [Sweep(1)], op);
    ClockedSnoc(ops + [Sweep(1)] + [op], last);
    assert ops + [op, last] == ops + [op] + [last];
    assert ops + [Sweep(1)] + [op, last] == ops + [Sweep(1)] + [op] + [last];
  }

  lemma LiveTail(stale: Entry, m: Memory, now: Time)
    requires stale.expiresAt < now && forall x :: x in m ==> now <= x.expiresAt
    ensures Live([stale] + m, now) == m
  {
    assert ([stale] + m)[1..] == m;
    LiveAll(m, now);
  }

  lemma SameExpiryOrdered(m: Memory, at: Time)
    requires forall e :: e in m ==> e.expiresAt == at
    ensures Ordered(m)
  {
    assert forall i :: 0 <= i < |m| ==> m[i] in m;
  }

  /** A full cache of entries that expire together, given one more: the first goes, the rest stay. */
  lemma FullThenSet(m: Memory, e: Entry, b: Entry)
    requires |m| == MAX_MEMORY_ENTRIES - 1 && forall x :: x in [e] + m ==> x.key != b.key && x.expiresAt == b.expiresAt
    ensures Evict(Put([e] + m, b)) == m + [b]
  {
    hide Evict, Put;
    PutNew([e] + m, b);
    var full := [e] + m + [b];
    SameExpiryOrdered(full, b.expiresAt);
    EvictFirst(full);
    assert full[1..] == m + [b];
  }

  lemma UnsweptMisses(fill: Memory, stale: Entry, a: Entry, b: Entry)
    requires |fill| == MAX_MEMORY_ENTRIES - 1 && Unique(fill)
    requires stale.key == a.key != b.key && a.expiresAt == b.expiresAt
    requires forall e :: e in fill ==> e.key != a.key && e.key != b.key && e.expiresAt == a.expiresAt
    ensures Evict(Put([stale] + fill, a)) == [a] + fill
    ensures Find(Evict(Put([a] + fill, b)), a.key) == None
  {
    hide Evict, Put, Find, Unique;
    PutHead(fill, stale, a);
    UniqueCons(fill, a);
    NoEviction([a] + fill);
    FullThenSet(fill, a, b);
  }

  lemma SweptHits(fill: Memory, a: Entry, b: Entry)
    requires |fill| == MAX_MEMORY_ENTRIES - 1 && Unique(fill) && a.key != b.key && a.expiresAt == b.expiresAt
    requires forall e :: e in fill ==> e.key != a.key && e.key != b.key && e.expiresAt == a.expiresAt
    ensures Evict(Put(fill, a)) == fill + [a]
    ensures Find(Evict(Put(fill + [a], b)), a.key) == Some(a)
  {
    hide Evict, Put, Find, Unique;
    PutNew(fill, a);
    PutOnly(fill, a);
    NoEviction(fill + [a]);
    var rest := fill[1..] + [a];
    assert fill + [a] == [fill[0]] + rest;
    PutOnly(fill + [a], b);
    FullThenSet(rest, fill[0], b);
    StepOnly(fill + [a], Set(b.key, b.value, 0, b.expiresAt));
    assert Written(Set(b.key, b.value, 0, b.expiresAt)) == b;
    LookupOf(rest + [b], a);
  }

  /**
   * With a tie a sweep can be seen. Among entries that expire together the one placed first is
   * evicted, and a sweep changes the place a key gets when it is set again: after this history the
   * swept cache still answers "a", which the unswept one has evicted.
   */
  lemma SweepChangesTiedEviction()
    ensures var a, b := Filling(999), [Set("a", "new", 60, 1), Set("b", "", 60, 1)];
            && Clocked(a + [Sweep(1)] + b, 1) && Clocked(a + b, 1)
            && Lookup(Run(a + b), "a", 1) == None
            && Lookup(Run(a + [Sweep(1)] + b), "a", 1) == Some("new")
  {
    hide Evict, Put, Find, Fillers, Live, Filling, Clocked, Unique;
    var past, setA, setB := Filling(999), Set("a", "new", 60, 1), Set("b", "", 60, 1);
    var fill, a, b := Fillers(999, 60001), Entry("a", "new", 60001), Entry("b", "", 60001);
    var stale := Entry("a", "old", 0);
    RunFilling(999);
    FillersUnique(999, 60001);
    LiveTail(stale, fill, 1);
    TwoMore(past, setA, setB);
    TwoMore(past + [Sweep(1)], setA, setB);
    OneMore(past, Sweep(1));
    ClockedFilling(999);
    ClockedMore(past, setA, setB);
    UnsweptMisses(fill, stale, a, b);
    SweptHits(fill, a, b);
  }
}
