/**
 * Idempotent creation: the result of a create is cached for a day under the vendor and the key, with
 * the hash of the request body.
 *
 * Models `createIdempotent` of src/escrow/escrow.service.ts.
 */
module IdempotentCreate {
  import opened EscrowTables
  import J = StableJson
  import P = StableJsonProofs

  const DAY_MS: int := 86400 * 1000

  datatype Entry<+R> = Entry(requestHash: nat, result: R, expiresAt: Time)

  type Cache<+R> = map<string, Entry<R>>

  /** `create` is what `createEscrow` would return, None when it throws. */
  datatype Request<+R> = Request(vendor: Address, key: string, body: J.Json, create: Option<R>, now: Time)

  datatype Reply<+R> = Given(result: R) | KeyReused | Failed

  // ── The cache key ─────────────────────────────────────────────────────────

  function CacheKey(vendor: Address, key: string): string { "idempotency:" + vendor + ":" + key }

  lemma SameHead(v: string, k: string, w: string, l: string)
    requires ':' !in v && ':' !in w && v + ":" + k == w + ":" + l
    ensures v == w && k == l
  {
    var s := v + ":" + k;
    assert s[|v|] == ':' && s[|w|] == ':';
    assert (forall i :: 0 <= i < |v| ==> s[i] == v[i]) && (forall i :: 0 <= i < |w| ==> s[i] == w[i]);
    assert |v| == |w|;
    assert s[..|v|] == v && s[..|w|] == w && s[|v| + 1..] == k && s[|w| + 1..] == l;
  }

  /** No vendor address contains a colon, so no two pairs share a cache key. */
  lemma CacheKeyInjective(v: Address, k: string, w: Address, l: string)
    requires ':' !in v && ':' !in w && CacheKey(v, k) == CacheKey(w, l)
    ensures v == w && k == l
  {
    var n := |"idempotency:"|;
    var s := CacheKey(v, k);
    assert s[n..] == v + ":" + k && s[n..] == w + ":" + l;
    SameHead(v, k, w, l);
  }

  // ── One request ───────────────────────────────────────────────────────────

  function Live<R>(cache: Cache<R>, k: string, now: Time): Option<Entry<R>> {
    if k in cache && now <= cache[k].expiresAt then Some(cache[k]) else None
  }

  function HashOf(hash: J.Text -> nat, body: J.Json): nat { hash(J.StableStringify(body)) }

  /** What a request answers and writes when it has read `seen`; the flag tells whether `createEscrow` ran. */
  function Handle<R>(seen: Cache<R>, hash: J.Text -> nat, r: Request<R>): (Cache<R>, Reply<R>, bool) {
    var k := CacheKey(r.vendor, r.key);
    var entry := Live(seen, k, r.now);
    if entry.Some? then
      var same := entry.value.requestHash == HashOf(hash, r.body);
      (seen, if same then Given(entry.value.result) else KeyReused, false)
    else if r.create.None? then (seen, Failed, true)
    else (seen[k := Entry(HashOf(hash, r.body), r.create.value, r.now + DAY_MS)], Given(r.create.value), true)
  }

  // ── Any number of requests ────────────────────────────────────────────────

  function After<R>(reqs: seq<Request<R>>, hash: J.Text -> nat): Cache<R> {
    if reqs == [] then map[] else Handle(After(reqs[..|reqs| - 1], hash), hash, reqs[|reqs| - 1]).0
  }

  datatype Made<+R> = Made(body: J.Json, result: R, at: Time)

  /** The creation that counts for a key: the first one that succeeds once a day has passed since the last. */
  function LastMade<R>(reqs: seq<Request<R>>, k: string): Option<Made<R>> {
    if reqs == [] then None
    else
      var r, m := reqs[|reqs| - 1], LastMade(reqs[..|reqs| - 1], k);
      if CacheKey(r.vendor, r.key) == k && r.create.Some? && (m.None? || r.now > m.value.at + 86400000)
      then Some(Made(r.body, r.create.value, r.now)) else m
  }

  lemma {:induction false} CacheHoldsLastMade<R>(reqs: seq<Request<R>>, hash: J.Text -> nat, k: string)
    ensures var m := LastMade(reqs, k);
            if m.None? then k !in After(reqs, hash)
            else k in After(reqs, hash)
                 && After(reqs, hash)[k] == Entry(HashOf(hash, m.value.body), m.value.result, m.value.at + DAY_MS)
    decreases |reqs|
  {
    hide HashOf;
    if reqs != [] {
      CacheHoldsLastMade(reqs[..|reqs| - 1], hash, k);
    }
  }

  predicate ValidBodies<R>(reqs: seq<Request<R>>) { forall i :: 0 <= i < |reqs| ==> J.Valid(reqs[i].body) }

  lemma {:induction false} MadeIsValid<R>(reqs: seq<Request<R>>, k: string)
    requires ValidBodies(reqs)
    ensures LastMade(reqs, k).Some? ==> J.Valid(LastMade(reqs, k).value.body)
    decreases |reqs|
  {
    if reqs != [] { MadeIsValid(reqs[..|reqs| - 1], k); }
  }

  /**
   * After any requests with any keys and bodies: within a day of the creation that counts for its key a
   * request gets that result exactly when its body is the same, is refused otherwise, and creates
   * nothing; in every other case it creates.
   */
  lemma RepliesExactly<R>(reqs: seq<Request<R>>, hash: J.Text -> nat, r: Request<R>)
    requires forall s, t :: hash(s) == hash(t) ==> s == t
    requires ValidBodies(reqs) && J.Valid(r.body)
    ensures var m := LastMade(reqs, CacheKey(r.vendor, r.key));
            var (cache, reply, created) := Handle(After(reqs, hash), hash, r);
            if m.Some? && r.now <= m.value.at + 86400000 then
              && !created && cache == After(reqs, hash)
              && (reply == Given(m.value.result) <==> J.Same(m.value.body, r.body))
              && (reply == KeyReused <==> !J.Same(m.value.body, r.body))
            else created && reply == match r.create case Some(result) => Given(result) case None => Failed
  {
    hide After, LastMade;
    var k := CacheKey(r.vendor, r.key);
    var m := LastMade(reqs, k);
    CacheHoldsLastMade(reqs, hash, k);
    MadeIsValid(reqs, k);
    if m.Some? { P.TextExactly(m.value.body, r.body); }
  }

  predicate Creates<R>(reqs: seq<Request<R>>, hash: J.Text -> nat, i: nat)
    requires i < |reqs|
  {
    Handle(After(reqs[..i], hash), hash, reqs[i]).2 && reqs[i].create.Some?
  }

  predicate Clocked<R>(reqs: seq<Request<R>>) { forall i, j :: 0 <= i < j < |reqs| ==> reqs[i].now <= reqs[j].now }

  lemma {:induction false} MadeSince<R>(reqs: seq<Request<R>>, hash: J.Text -> nat, i: nat)
    requires i < |reqs| && Clocked(reqs) && Creates(reqs, hash, i)
    ensures var m := LastMade(reqs, CacheKey(reqs[i].vendor, reqs[i].key));
            m.Some? && m.value.at >= reqs[i].now
    decreases |reqs|
  {
    var n, k := |reqs| - 1, CacheKey(reqs[i].vendor, reqs[i].key);
    var init := reqs[..n];
    if i < n {
      assert init[..i] == reqs[..i];
      MadeSince(init, hash, i);
    } else {
      CacheHoldsLastMade(init, hash, k);
    }
  }

  /** However many requests share a vendor and a key, two of them that create are more than a day apart. */
  lemma OneCreationADay<R>(reqs: seq<Request<R>>, hash: J.Text -> nat, i: nat, j: nat)
    requires i < j < |reqs| && Clocked(reqs)
    requires reqs[i].vendor == reqs[j].vendor && reqs[i].key == reqs[j].key
    requires Creates(reqs, hash, i) && Creates(reqs, hash, j)
    ensures reqs[j].now > reqs[i].now + 86400000
  {
    var init, k := reqs[..j], CacheKey(reqs[j].vendor, reqs[j].key);
    assert init[..i] == reqs[..i];
    MadeSince(init, hash, i);
    CacheHoldsLastMade(init, hash, k);
  }

  /**
   * Read and write are separate calls. Of two requests with one key that find no entry, both create
   * exactly when the second reads before the first has written.
   */
  lemma OverlapExactly<R>(cache: Cache<R>, hash: J.Text -> nat, first: Request<R>, second: Request<R>, late: bool)
    requires first.vendor == second.vendor && first.key == second.key && first.create.Some?
    requires Live(cache, CacheKey(first.vendor, first.key), first.now).None?
    requires first.now <= second.now <= first.now + 86400000
    ensures Handle(cache, hash, first).2
    ensures var seen := if late then Handle(cache, hash, first).0 else cache;
            Handle(seen, hash, second).2 <==> !late
  {}
}
