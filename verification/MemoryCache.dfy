/**
 * The in-memory fallback of the cache: an insertion-ordered map of entries with an expiry, swept
 * periodically and bounded by evicting the entries that expire soonest.
 *
 * Models src/cache/cache.service.ts without Redis.
 */
module MemoryCache {
  import opened EscrowTables

  type Key = string

  const MAX_MEMORY_ENTRIES: nat := 1000

  datatype Entry = Entry(key: Key, value: string, expiresAt: Time)

  /** A JavaScript `Map` in iteration order: setting a present key keeps its place. */
  type Memory = seq<Entry>

  predicate Unique(m: Memory) { forall i, j :: 0 <= i < j < |m| ==> m[i].key != m[j].key }

  function Keys(m: Memory): set<Key> { set e | e in m :: e.key }

  function Find(m: Memory, k: Key): (e: Option<Entry>)
    ensures e.Some? ==> e.value in m && e.value.key == k
    ensures e.None? ==> forall x :: x in m ==> x.key != k
  {
    if m == [] then None else if m[0].key == k then Some(m[0]) else Find(m[1..], k)
  }

  function Put(m: Memory, e: Entry): Memory {
    if m == [] then [e] else if m[0].key == e.key then [e] + m[1..] else [m[0]] + Put(m[1..], e)
  }

  function Del(m: Memory, k: Key): Memory {
    if m == [] then [] else if m[0].key == k then m[1..] else [m[0]] + Del(m[1..], k)
  }

  function Live(m: Memory, now: Time): Memory {
    if m == [] then [] else (if now > m[0].expiresAt then [] else [m[0]]) + Live(m[1..], now)
  }

  // ── Stable sort by expiry ─────────────────────────────────────────────────

  function Insert(e: Entry, m: Memory): Memory {
    if m == [] || e.expiresAt <= m[0].expiresAt then [e] + m else [m[0]] + Insert(e, m[1..])
  }

  function SortByExpiry(m: Memory): Memory { if m == [] then [] else Insert(m[0], SortByExpiry(m[1..])) }

  predicate Ordered(m: Memory) { forall i, j :: 0 <= i < j < |m| ==> m[i].expiresAt <= m[j].expiresAt }

  lemma {:induction false} InsertPermutes(e: Entry, m: Memory)
    ensures multiset(Insert(e, m)) == multiset(m) + multiset{e}
    decreases |m|
  {
    if m != [] && e.expiresAt > m[0].expiresAt {
      InsertPermutes(e, m[1..]);
      assert m == [m[0]] + m[1..];
    }
  }

  lemma {:induction false} InsertOrders(e: Entry, m: Memory)
    requires Ordered(m)
    ensures Ordered(Insert(e, m))
    decreases |m|
  {
    if m != [] && e.expiresAt > m[0].expiresAt {
      InsertOrders(e, m[1..]);
      InsertPermutes(e, m[1..]);
      var tail := Insert(e, m[1..]);
      forall j | 0 <= j < |tail| ensures m[0].expiresAt <= tail[j].expiresAt {
        assert tail[j] in multiset(tail);
      }
    }
  }

  lemma NoneOrdered()
    ensures Ordered([])
  {}

  lemma SameSize(a: Memory, b: Memory)
    requires multiset(a) == multiset(b)
    ensures |a| == |b|
  {
    assert |multiset(a)| == |a| && |multiset(b)| == |b|;
  }

  lemma {:induction false} SortOrders(m: Memory)
    ensures Ordered(SortByExpiry(m)) && multiset(SortByExpiry(m)) == multiset(m) && |SortByExpiry(m)| == |m|
    decreases |m|
  {
    hide Ordered, Insert;
    if m == [] {
      NoneOrdered();
    } else {
      SortOrders(m[1..]);
      InsertOrders(m[0], SortByExpiry(m[1..]));
      InsertPermutes(m[0], SortByExpiry(m[1..]));
      assert m == [m[0]] + m[1..];
      SameSize(m, SortByExpiry(m));
    }
  }

  /** The sort moves nothing that is already in order: equal expiries keep their places. */
  lemma {:induction false} SortKeepsOrder(m: Memory)
    requires Ordered(m)
    ensures SortByExpiry(m) == m
    decreases |m|
  {
    if |m| > 1 { SortKeepsOrder(m[1..]); }
  }

  // ── Eviction ──────────────────────────────────────────────────────────────

  function DelAll(m: Memory, gone: Memory): Memory
    decreases |gone|
  {
    if gone == [] then m else DelAll(Del(m, gone[0].key), gone[1..])
  }

  function Surplus(m: Memory): nat { if |m| <= MAX_MEMORY_ENTRIES then 0 else |m| - MAX_MEMORY_ENTRIES }

  function Evicted(m: Memory): (gone: Memory)
    ensures |gone| == Surplus(m)
  {
    SortOrders(m);
    SortByExpiry(m)[..Surplus(m)]
  }

  function Evict(m: Memory): Memory { DelAll(m, Evicted(m)) }

  lemma {:induction false} DelOnly(m: Memory, k: Key)
    requires Unique(m)
    ensures Unique(Del(m, k))
    ensures forall e :: e in Del(m, k) <==> e in m && e.key != k
    ensures |Del(m, k)| == if k in Keys(m) then |m| - 1 else |m|
    decreases |m|
  {
    if m != [] {
      assert m[0] in m;
      assert m == [m[0]] + m[1..];
      if m[0].key != k {
        DelOnly(m[1..], k);
        assert k in Keys(m) <==> k in Keys(m[1..]);
        var d := Del(m[1..], k);
        assert forall j :: 0 <= j < |d| ==> d[j] in d;
      }
    }
  }

  lemma {:induction false} DelAllOnly(m: Memory, gone: Memory)
    requires Unique(m) && Unique(gone) && forall e :: e in gone ==> e in m
    ensures Unique(DelAll(m, gone)) && |DelAll(m, gone)| == |m| - |gone|
    ensures forall e :: e in DelAll(m, gone) <==> e in m && e.key !in Keys(gone)
    decreases |gone|
  {
    if gone != [] {
      DelOnly(m, gone[0].key);
      assert gone[0] in gone;
      assert gone == [gone[0]] + gone[1..];
      assert forall e :: e in gone[1..] ==> e.key != gone[0].key;
      DelAllOnly(Del(m, gone[0].key), gone[1..]);
      assert Keys(gone) == Keys(gone[1..]) + {gone[0].key};
    }
  }

  lemma TwiceIn(s: Memory, i: nat, j: nat)
    requires i < j < |s|
    ensures s[i] == s[j] ==> multiset(s)[s[i]] >= 2
  {
    assert s == s[..j] + [s[j]] + s[j + 1..];
    assert s[i] in s[..j];
  }

  lemma {:induction false} OnceIn(m: Memory, e: Entry)
    requires Unique(m)
    ensures multiset(m)[e] <= 1
    decreases |m|
  {
    if m != [] {
      assert m == [m[0]] + m[1..];
      OnceIn(m[1..], e);
      if m[0] == e { assert e !in m[1..]; }
    }
  }

  lemma {:induction false} UniqueIsMultiset(m: Memory, s: Memory)
    requires Unique(m) && multiset(s) == multiset(m)
    ensures Unique(s)
  {
    forall i, j | 0 <= i < j < |s| ensures s[i].key != s[j].key {
      TwiceIn(s, i, j);
      assert s[i] in multiset(m) && s[j] in multiset(m);
      if s[i] == s[j] { OnceIn(m, s[i]); }
    }
  }

  lemma NoneGone(m: Memory)
    ensures DelAll(m, []) == m
  {}

  lemma SplitOrder(s: Memory, n: nat, x: Entry, y: Entry)
    requires Ordered(s) && n <= |s| && x in s[..n] && y in s && y !in s[..n]
    ensures x.expiresAt <= y.expiresAt
  {
    var i :| 0 <= i < n && s[i] == x;
    var j :| 0 <= j < |s| && s[j] == y;
    assert n <= j;
  }

  lemma SameEntry(m: Memory, a: Entry, b: Entry)
    requires Unique(m) && a in m && b in m && a.key == b.key
    ensures a == b
  {
    var i :| 0 <= i < |m| && m[i] == a;
    var j :| 0 <= j < |m| && m[j] == b;
    assert i == j;
  }

  /**
   * Eviction leaves at most the maximum, removes nothing when there is room, and every evicted
   * entry expires no later than every entry that stays.
   */
  lemma EvictExactly(m: Memory)
    requires Unique(m)
    ensures var kept := Evict(m);
            && Unique(kept) && |kept| == (if |m| <= 1000 then |m| else 1000)
            && (forall e :: e in kept ==> e in m)
            && (|m| <= 1000 ==> kept == m)
            && (forall x, y :: x in m && x !in kept && y in kept ==> x.expiresAt <= y.expiresAt)
  {
    hide DelAll, SortByExpiry, Ordered;
    var s, n := SortByExpiry(m), Surplus(m);
    SortOrders(m);
    UniqueIsMultiset(m, s);
    var gone := Evicted(m);
    assert gone == s[..n];
    forall e | e in gone ensures e in m { assert e in multiset(s); }
    DelAllOnly(m, gone);
    assert gone == [] ==> Evict(m) == m by { NoneGone(m); }
    forall x, y | x in m && x !in Evict(m) && y in Evict(m) ensures x.expiresAt <= y.expiresAt {
      var g :| g in gone && g.key == x.key;
      SameEntry(m, g, x);
      assert y in gone ==> y.key in Keys(gone);
      assert y in multiset(s);
      SplitOrder(s, n, x, y);
    }
  }

  // ── Whole histories against a TTL map ─────────────────────────────────────

  datatype Op = Set(key: Key, value: string, ttlSeconds: int, now: Time) | Remove(key: Key)
              | Get(key: Key, now: Time) | Sweep(now: Time)

  function Written(op: Op): Entry
    requires op.Set?
  {
    Entry(op.key, op.value, op.now + op.ttlSeconds * 1000)
  }

  /** What a `get` returns. */
  function Lookup(m: Memory, k: Key, now: Time): Option<string> {
    var e := Find(m, k);
    if e.Some? && now <= e.value.expiresAt then Some(e.value.value) else None
  }

  function Step(m: Memory, op: Op): Memory {
    match op
    case Set(_, _, _, _) => Evict(Put(m, Written(op)))
    case Remove(k) => Del(m, k)
    case Get(k, now) => if Find(m, k).Some? && now > Find(m, k).value.expiresAt then Del(m, k) else m
    case Sweep(now) => Live(m, now)
  }

  function Run(ops: seq<Op>): Memory {
    if ops == [] then [] else Step(Run(ops[..|ops| - 1]), ops[|ops| - 1])
  }

  /** The unbounded TTL map: the last write of a key that no later delete removed. */
  function Latest(ops: seq<Op>, k: Key): Option<Entry> {
    if ops == [] then None
    else
      var op := ops[|ops| - 1];
      if op.Set? && op.key == k then Some(Written(op))
      else if op.Remove? && op.key == k then None
      else Latest(ops[..|ops| - 1], k)
  }

  function TtlGet(ops: seq<Op>, k: Key, now: Time): Option<string> {
    var e := Latest(ops, k);
    if e.Some? && now <= e.value.expiresAt then Some(e.value.value) else None
  }

  function SetKeys(ops: seq<Op>): set<Key> { set op | op in ops && op.Set? :: op.key }

  /** No operation reads a clock later than `now`, and clocks never go back. */
  predicate Clocked(ops: seq<Op>, now: Time)
    decreases |ops|
  {
    ops != [] ==>
      var op := ops[|ops| - 1];
      if op.Remove? then Clocked(ops[..|ops| - 1], now)
      else op.now <= now && Clocked(ops[..|ops| - 1], op.now)
  }

  lemma UniqueCons(m: Memory, e: Entry)
    requires Unique(m) && forall x :: x in m ==> x.key != e.key
    ensures Unique([e] + m)
  {
    var n := [e] + m;
    forall i, j | 0 <= i < j < |n| ensures n[i].key != n[j].key {
      assert n[j] == m[j - 1] && m[j - 1] in m;
    }
  }

  lemma UniqueTail(m: Memory)
    requires Unique(m) && m != []
    ensures Unique(m[1..]) && forall x :: x in m[1..] ==> x.key != m[0].key
    ensures m == [m[0]] + m[1..]
  {}

  lemma UniqueOne(e: Entry)
    ensures Unique([e])
  {}

  lemma {:induction false} PutOnly(m: Memory, e: Entry)
    requires Unique(m)
    ensures Unique(Put(m, e)) && forall x :: x in Put(m, e) <==> x == e || (x in m && x.key != e.key)
    decreases |m|
  {
    hide Unique;
    if m == [] {
      UniqueOne(e);
    } else {
      UniqueTail(m);
      if m[0].key == e.key {
        UniqueCons(m[1..], e);
      } else {
        PutOnly(m[1..], e);
        UniqueCons(Put(m[1..], e), m[0]);
      }
    }
  }

  lemma {:induction false} LiveOnly(m: Memory, now: Time)
    requires Unique(m)
    ensures Unique(Live(m, now)) && forall x :: x in Live(m, now) <==> x in m && now <= x.expiresAt
    decreases |m|
  {
    if m != [] {
      assert m == [m[0]] + m[1..] && m[0] in m;
      LiveOnly(m[1..], now);
      var rest := Live(m[1..], now);
      assert forall j :: 0 <= j < |rest| ==> rest[j] in rest;
    }
  }

  lemma LookupOf(m: Memory, e: Entry)
    requires Unique(m) && e in m
    ensures Find(m, e.key) == Some(e)
  {
    SameEntry(m, Find(m, e.key).value, e);
  }

  lemma {:induction false} LiveShorter(m: Memory, now: Time)
    ensures |Live(m, now)| <= |m|
    decreases |m|
  {
    if m != [] { LiveShorter(m[1..], now); }
  }

  /** What one operation can leave in memory. */
  lemma StepOnly(m: Memory, op: Op)
    requires Unique(m) && |m| <= MAX_MEMORY_ENTRIES
    ensures var n := Step(m, op);
            && Unique(n) && |n| <= MAX_MEMORY_ENTRIES
            && (forall e :: e in n ==>
                  || (op.Set? && e == Written(op))
                  || (e in m && ((op.Set? || op.Remove?) ==> e.key != op.key)))
  {
    hide Evict, Put, Live, Del;
    match op
    case Set(_, _, _, _) =>
      PutOnly(m, Written(op));
      EvictExactly(Put(m, Written(op)));
    case Remove(k) => DelOnly(m, k);
    case Get(k, _) => DelOnly(m, k);
    case Sweep(now) =>
      LiveOnly(m, now);
      LiveShorter(m, now);
  }

  /** Setting a key keeps every place; a new key comes last. */
  lemma {:induction false} PutLength(m: Memory, e: Entry)
    ensures |Put(m, e)| == if e.key in Keys(m) then |m| else |m| + 1
    ensures forall i :: 0 <= i < |m| ==> Put(m, e)[i].key == m[i].key
    ensures e.key !in Keys(m) ==> Put(m, e) == m + [e]
    decreases |m|
  {
    if m != [] {
      assert m[0] in m;
      assert m == [m[0]] + m[1..];
      if m[0].key != e.key { PutLength(m[1..], e); }
    }
  }

  /**
   * After a `set` its key answers with the value at most until `ttlSeconds` seconds later. It does so
   * exactly until then, and every other entry stays, when the key was held before or there was room.
   */
  lemma SetAnswers(m: Memory, k: Key, value: string, ttlSeconds: int, now: Time, t: Time)
    requires Unique(m) && |m| <= MAX_MEMORY_ENTRIES
    ensures var n := Step(m, Set(k, value, ttlSeconds, now));
            var inTime := t - now <= 1000 * ttlSeconds;
            && (Lookup(n, k, t).Some? ==> inTime && Lookup(n, k, t) == Some(value))
            && (forall e :: e in n && e.key != k ==> e in m)
            && (k in Keys(m) || |m| < 1000 ==>
                  && Lookup(n, k, t) == (if inTime then Some(value) else None)
                  && forall e :: e in m && e.key != k ==> e in n)
  {
    hide Evict, Put;
    var op := Set(k, value, ttlSeconds, now);
    PutOnly(m, Written(op));
    PutLength(m, Written(op));
    EvictExactly(Put(m, Written(op)));
    var n := Step(m, op);
    assert forall e :: e in n && e.key == k ==> e == Written(op);
    if k in Keys(m) || |m| < 1000 { LookupOf(n, Written(op)); }
  }

  /** Every entry held is the latest write of its key; there are never more than the maximum. */
  lemma {:induction false} HeldIsLatest(ops: seq<Op>)
    ensures var m := Run(ops);
            && Unique(m) && |m| <= 1000
            && (forall e :: e in m ==> Latest(ops, e.key) == Some(e) && e.key in SetKeys(ops))
    decreases |ops|
  {
    hide Evict, Put, Live, Del;
    if ops != [] {
      var init, op := ops[..|ops| - 1], ops[|ops| - 1];
      assert ops == init + [op];
      HeldIsLatest(init);
      StepOnly(Run(init), op);
    }
  }

  /** A hit is always the latest undeleted, unexpired `set` of that key, whatever was evicted. */
  lemma HitIsLatest(ops: seq<Op>, k: Key, now: Time)
    requires Lookup(Run(ops), k, now).Some?
    ensures TtlGet(ops, k, now) == Lookup(Run(ops), k, now)
  {
    HeldIsLatest(ops);
  }

  lemma {:induction false} CardKeys(m: Memory)
    requires Unique(m)
    ensures |Keys(m)| == |m|
    decreases |m|
  {
    if m != [] {
      CardKeys(m[1..]);
      assert m == [m[0]] + m[1..];
      assert Keys(m) == Keys(m[1..]) + {m[0].key};
    }
  }

  lemma Subset<T>(a: set<T>, b: set<T>)
    requires a <= b
    ensures |a| <= |b|
  {
    assert b == a + (b - a);
  }

  lemma LiveAt(m: Memory, i: nat, now: Time)
    requires i < |m|
    ensures Live(m[i..], now) == if now > m[i].expiresAt then Live(m[i + 1..], now) else [m[i]] + Live(m[i + 1..], now)
  {
    assert m[i..][1..] == m[i + 1..];
  }

  lemma LiveNone(now: Time)
    ensures Live([], now) == []
  {}

  // ── The cache object ──────────────────────────────────────────────────────

  class CacheService {
    var memory: Memory

    ghost predicate Valid()
      reads this
    {
      Unique(memory) && |memory| <= MAX_MEMORY_ENTRIES
    }

    constructor ()
      ensures Valid() && memory == Run([])
    {
      memory := [];
    }

    /** An expired entry is dropped on the way. */
    method Get(key: Key, now: Time) returns (value: Option<string>)
      requires Valid()
      modifies this
      ensures Valid() && memory == Step(old(memory), Op.Get(key, now))
      ensures value == Lookup(old(memory), key, now)
      ensures value == None <==> forall e :: e in old(memory) && e.key == key ==> e.expiresAt < now
      ensures value.Some? ==> exists e :: e in old(memory) && e.key == key && e.value == value.value
      ensures forall e :: e in memory <==> e in old(memory) && (e.key == key ==> now <= e.expiresAt)
    {
      StepOnly(memory, Op.Get(key, now));
      DelOnly(memory, key);
      forall e | e in memory && e.key == key ensures Find(memory, key) == Some(e) { LookupOf(memory, e); }
      var entry := Find(memory, key);
      if entry.None? { return None; }
      if now > entry.value.expiresAt {
        memory := Del(memory, key);
        return None;
      }
      return Some(entry.value.value);
    }

    method Set(key: Key, value: string, ttlSeconds: int, now: Time)
      requires Valid()
      modifies this
      ensures Valid() && memory == Step(old(memory), Op.Set(key, value, ttlSeconds, now))
      ensures forall t :: t - now > 1000 * ttlSeconds ==> Lookup(memory, key, t) == None
      ensures key in Keys(old(memory)) || |old(memory)| < 1000 ==>
                forall t :: t - now <= 1000 * ttlSeconds ==> Lookup(memory, key, t) == Some(value)
    {
      StepOnly(memory, Op.Set(key, value, ttlSeconds, now));
      forall t { SetAnswers(memory, key, value, ttlSeconds, now, t); }
      var entry := Entry(key, value, now + ttlSeconds * 1000);
      PutOnly(memory, entry);
      memory := Put(memory, entry);
      EvictToCapacity();
    }

    method Delete(key: Key)
      requires Valid()
      modifies this
      ensures Valid() && memory == Step(old(memory), Remove(key))
      ensures forall e :: e in memory <==> e in old(memory) && e.key != key
      ensures forall now :: Lookup(memory, key, now) == None
    {
      StepOnly(memory, Remove(key));
      DelOnly(memory, key);
      memory := Del(memory, key);
    }

    /** The map is walked in order while expired entries are deleted from it. */
    method SweepExpired(now: Time)
      requires Valid()
      modifies this
      ensures Valid() && memory == Step(old(memory), Op.Sweep(now))
      ensures forall e :: e in memory <==> e in old(memory) && now <= e.expiresAt
    {
      hide Live, Unique;
      StepOnly(memory, Op.Sweep(now));
      ghost var before := memory;
      var i := 0;
      assert memory[..0] + Live(memory[0..], now) == Live(before, now) by { assert memory[0..] == memory; }
      while i < |memory|
        invariant i <= |memory|
        invariant memory[..i] + Live(memory[i..], now) == Live(before, now)
        decreases |memory| - i
      {
        LiveAt(memory, i, now);
        if now > memory[i].expiresAt {
          var next := memory[..i] + memory[i + 1..];
          assert next[..i] == memory[..i] && next[i..] == memory[i + 1..];
          memory := next;
        } else {
          assert memory[..i + 1] == memory[..i] + [memory[i]];
          i := i + 1;
        }
      }
      LiveNone(now);
      assert memory[..i] == memory && memory[i..] == [];
      assert memory == Live(before, now);
      LiveOnly(before, now);
    }

    /** Sorted by expiry, the first surplus entries are deleted one after the other. */
    method EvictToCapacity()
      requires Unique(memory)
      modifies this
      ensures memory == Evict(old(memory))
    {
      if |memory| <= MAX_MEMORY_ENTRIES {
        assert Evicted(memory) == [];
        NoneGone(memory);
        return;
      }
      var sorted := SortByExpiry(memory);
      var toDelete := |memory| - MAX_MEMORY_ENTRIES;
      SortOrders(memory);
      ghost var gone := Evicted(memory);
      for i := 0 to toDelete
        invariant DelAll(memory, gone[i..]) == Evict(old(memory))
      {
        assert gone[i..][1..] == gone[i + 1..];
        memory := Del(memory, sorted[i].key);
      }
      assert gone[toDelete..] == [];
      NoneGone(memory);
    }
  }
}
