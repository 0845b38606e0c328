/**
 * The cached escrow repository: reads go through a cache with a TTL, every write updates the table
 * and then deletes the cache key.
 *
 * Models src/escrow/escrow.repository.ts. A record is the field map Prisma returns.
 */
module CachedRepository {
  import opened EscrowTables
  import D = DecimalText
  import Lifecycle

  type Key = string
  type Field = string

  datatype Value = Null | Text(text: string) | Number(num: int) | Date(time: Time) | Big(big: int)

  type Record = map<Field, Value>

  const DATE_FIELDS: seq<Field> := [
    "shippedAt", "trackingCheckedAt", "deliveredAt", "deliveryRecordedAt",
    "autoReleaseSubmittedAt", "cancelledAt", "createdAt", "updatedAt"]

  const CONTRACT_ID: Field := "contractEscrowId"

  // ── BigInt and its text ───────────────────────────────────────────────────

  /** `BigInt.prototype.toJSON`. */
  function PrintBig(n: int): string { if n < 0 then "-" + D.Print(-n) else D.Print(n) }

  /** The value of a digit in any radix up to sixteen. */
  function DigitValue(c: char): nat {
    if '0' <= c <= '9' then c as int - '0' as int
    else if 'a' <= c <= 'f' then c as int - 'a' as int + 10
    else if 'A' <= c <= 'F' then c as int - 'A' as int + 10
    else 16
  }

  function Radix(c: char): nat {
    if c == 'x' || c == 'X' then 16 else if c == 'o' || c == 'O' then 8 else if c == 'b' || c == 'B' then 2 else 0
  }

  function InRadix(s: string, radix: nat): nat {
    if s == "" then 0 else InRadix(s[..|s| - 1], radix) * radix + DigitValue(s[|s| - 1])
  }

  predicate AllInRadix(s: string, radix: nat) { forall i :: 0 <= i < |s| ==> DigitValue(s[i]) < radix }

  /** `BigInt(text)`; None where it throws. */
  function BigIntOf(text: string): Option<int> {
    var s := Lifecycle.Trim(text);
    if D.AllDigits(s) then Some(D.Parse(s))
    else if |s| > 1 && (s[0] == '-' || s[0] == '+') && D.AllDigits(s[1..])
    then var n: int := D.Parse(s[1..]); Some(if s[0] == '-' then -n else n)
    else if |s| > 2 && s[0] == '0' && Radix(s[1]) > 0 && AllInRadix(s[2..], Radix(s[1]))
    then Some(InRadix(s[2..], Radix(s[1])))
    else None
  }

  lemma TrimKeeps(s: string)
    requires s != "" && !Lifecycle.Space(s[0]) && !Lifecycle.Space(s[|s| - 1])
    ensures Lifecycle.Trim(s) == s
  {}

  /** Every integer survives printing and reading back. */
  lemma BigIntUndoesPrint(n: int)
    ensures BigIntOf(PrintBig(n)) == Some(n)
  {
    var m := if n < 0 then -n else n;
    D.ParsePrint(m);
    TrimKeeps(PrintBig(n));
    if n < 0 {
      assert PrintBig(n)[1..] == D.Print(m);
      assert !D.Digit(PrintBig(n)[0]);
    }
  }

  // ── The JSON round trip of a cached record ────────────────────────────────

  /** `Date.prototype.toJSON` and the `Date` constructor on its output. */
  datatype Dates = Dates(toText: Time -> string, fromText: string -> Time)

  ghost predicate Inverse(dates: Dates) { forall t :: dates.fromText(dates.toText(t)) == t }

  function EncodeValue(v: Value, dates: Dates): Value {
    match v
    case Date(t) => Text(dates.toText(t))
    case Big(n) => Text(PrintBig(n))
    case _ => v
  }

  /** What `JSON.parse` gives back for `JSON.stringify` of a record. */
  function Encode(r: Record, dates: Dates): Record { map f | f in r :: EncodeValue(r[f], dates) }

  function ReviveValue(f: Field, v: Value, dates: Dates): Value {
    if f in DATE_FIELDS && v.Text? then Date(dates.fromText(v.text))
    else if f == CONTRACT_ID && v.Text? && BigIntOf(v.text).Some? then Big(BigIntOf(v.text).value)
    else v
  }

  /** `BigInt` rejects a contract id that is not a number. */
  predicate Revivable(r: Record) {
    CONTRACT_ID in r && r[CONTRACT_ID].Text? ==> BigIntOf(r[CONTRACT_ID].text).Some?
  }

  function Revived(r: Record, dates: Dates): Option<Record> {
    if Revivable(r) then Some(map f | f in r :: ReviveValue(f, r[f], dates)) else None
  }

  /** The column types of the schema. */
  predicate ValueFits(f: Field, v: Value) {
    if f in DATE_FIELDS then v.Null? || v.Date?
    else if f == CONTRACT_ID then v.Null? || v.Big?
    else v.Null? || v.Text? || v.Number?
  }

  predicate Typed(r: Record) { forall f :: f in r ==> ValueFits(f, r[f]) }

  lemma ValueRoundTrip(f: Field, v: Value, dates: Dates)
    requires ValueFits(f, v) && Inverse(dates)
    ensures ReviveValue(f, EncodeValue(v, dates), dates) == v
    ensures ReviveValue(f, v, dates) == v
    ensures f == CONTRACT_ID && EncodeValue(v, dates).Text? ==> BigIntOf(EncodeValue(v, dates).text).Some?
  {
    if v.Big? { BigIntUndoesPrint(v.big); }
  }

  /** Reviving undoes the JSON encoding, and leaves alone a record that was never encoded. */
  lemma ReviveUndoesEncode(r: Record, dates: Dates)
    requires Typed(r) && Inverse(dates)
    ensures Revived(Encode(r, dates), dates) == Some(r)
    ensures Revived(r, dates) == Some(r)
  {
    hide ReviveValue, EncodeValue;
    forall f | f in r
      ensures ReviveValue(f, EncodeValue(r[f], dates), dates) == r[f] && ReviveValue(f, r[f], dates) == r[f]
      ensures f == CONTRACT_ID && EncodeValue(r[f], dates).Text? ==> BigIntOf(EncodeValue(r[f], dates).text).Some?
    {
      ValueRoundTrip(f, r[f], dates);
    }
    assert Revivable(Encode(r, dates)) && Revivable(r);
    assert Revived(Encode(r, dates), dates).value == r;
    assert Revived(r, dates).value == r;
  }

  /** The loop that turns the text in some fields of a copy back into dates. */
  method ReviveDates(cached: Record, fields: seq<Field>, dates: Dates) returns (record: Record)
    ensures record.Keys == cached.Keys
    ensures forall f :: f in cached ==>
              record[f] == if f in fields && cached[f].Text? then Date(dates.fromText(cached[f].text)) else cached[f]
  {
    record := cached;
    for i := 0 to |fields|
      invariant record.Keys == cached.Keys
      invariant forall f :: f in cached ==>
                  record[f] == if f in fields[..i] && cached[f].Text?
                               then Date(dates.fromText(cached[f].text)) else cached[f]
    {
      var field := fields[i];
      assert fields[..i + 1] == fields[..i] + [field];
      if field in record && record[field].Text? {
        record := record[field := Date(dates.fromText(record[field].text))];
      }
    }
    assert fields[..|fields|] == fields;
  }

  method ReviveCachedEscrow(cached: Record, dates: Dates) returns (revived: Option<Record>)
    ensures revived == Revived(cached, dates)
  {
    var record := ReviveDates(cached, DATE_FIELDS, dates);
    assert CONTRACT_ID !in DATE_FIELDS;
    if CONTRACT_ID in record && record[CONTRACT_ID].Text? {
      var big := BigIntOf(record[CONTRACT_ID].text);
      if big.None? { return None; }
      record := record[CONTRACT_ID := Big(big.value)];
    }
    assert record == map f | f in cached :: ReviveValue(f, cached[f], dates);
    return Some(record);
  }

  // ── Operations ────────────────────────────────────────────────────────────

  const TTL_MS: int := 60000

  datatype Cached = Cached(value: Record, expiresAt: Time)

  datatype Repo = Repo(rows: map<Key, Record>, cache: map<Key, Cached>)

  /** The single-row updates; each is followed by deleting the cache key. */
  datatype Mutation =
    | UpdateState(state: string)   // also markCompleted and markRefunded
    | UpdateTracking(trackingId: string)
    | MarkShipped(tracking: string)
    | MarkTrackingChecked(checkedAt: Time)
    | MarkDelivered(deliveredAt: Time)
    | RecordAutoReleaseSubmission(txHash: string, submittedAt: Time)
    | MarkCancelled
    | ClearAutoReleaseSubmitting
    | MarkAutoReleased(hash: string)
    | ClearDeliveryClaim
    | SaveBuyerContact(email: Option<string>, phone: Option<string>)

  function TextOrNull(s: Option<string>): Value { if s.Some? then Text(s.value) else Null }

  /** The `data` of the update; Prisma stamps `updatedAt` itself. */
  function Patch(m: Mutation, now: Time): Record {
    map["updatedAt" := Date(now)] +
    match m
    case UpdateState(s) => map["state" := Text(s)]
    case UpdateTracking(id) => map["trackingId" := Text(id)]
    case MarkShipped(id) => map["state" := Text("SHIPPED"), "trackingId" := Text(id), "shippedAt" := Date(now)]
    case MarkTrackingChecked(at) => map["trackingCheckedAt" := Date(at)]
    case MarkDelivered(at) =>
      map["state" := Text("DELIVERED"), "deliveredAt" := Date(at), "deliveryRecordedAt" := Date(at)]
    case RecordAutoReleaseSubmission(h, at) => map["autoReleaseSubmittedAt" := Date(at), "autoReleaseTxHash" := Text(h)]
    case MarkCancelled => map["state" := Text("CANCELLED"), "cancelledAt" := Date(now)]
    case ClearAutoReleaseSubmitting => map["autoReleaseSubmittedAt" := Null]
    case MarkAutoReleased(h) => map["state" := Text("RELEASED"), "autoReleaseTxHash" := Text(h)]
    case ClearDeliveryClaim => map["deliveryRecordedAt" := Null]
    case SaveBuyerContact(e, p) => map["buyerContactEmail" := TextOrNull(e), "buyerContactPhone" := TextOrNull(p)]
  }

  predicate Has(r: Record, f: Field, v: Value) { f in r && r[f] == v }

  /** A column holds the value written to it, or what it held before. */
  predicate Column(a: Record, b: Record, f: Field, written: Option<Value>) {
    if written.Some? then Has(b, f, written.value) else (f in b <==> f in a) && (f in a ==> b[f] == a[f])
  }

  const WRITTEN: set<Field> := {
    "updatedAt", "state", "trackingId", "shippedAt", "trackingCheckedAt", "deliveredAt", "deliveryRecordedAt",
    "autoReleaseSubmittedAt", "autoReleaseTxHash", "cancelledAt", "buyerContactEmail", "buyerContactPhone"}

  /** Column by column: which updates write it, and what. */
  predicate WritesState(a: Record, b: Record, m: Mutation) {
    Column(a, b, "state",
           match m
           case UpdateState(s) => Some(Text(s))
           case MarkShipped(_) => Some(Text("SHIPPED"))
           case MarkDelivered(_) => Some(Text("DELIVERED"))
           case MarkCancelled => Some(Text("CANCELLED"))
           case MarkAutoReleased(_) => Some(Text("RELEASED"))
           case _ => None)
  }

  predicate WritesShipment(a: Record, b: Record, m: Mutation, now: Time) {
    && Column(a, b, "trackingId",
              if m.UpdateTracking? then Some(Text(m.trackingId))
              else if m.MarkShipped? then Some(Text(m.tracking)) else None)
    && Column(a, b, "shippedAt", if m.MarkShipped? then Some(Date(now)) else None)
    && Column(a, b, "trackingCheckedAt", if m.MarkTrackingChecked? then Some(Date(m.checkedAt)) else None)
  }

  predicate WritesDelivery(a: Record, b: Record, m: Mutation, now: Time) {
    && Column(a, b, "cancelledAt", if m.MarkCancelled? then Some(Date(now)) else None)
    && Column(a, b, "deliveredAt", if m.MarkDelivered? then Some(Date(m.deliveredAt)) else None)
    && Column(a, b, "deliveryRecordedAt",
              if m.MarkDelivered? then Some(Date(m.deliveredAt))
              else if m.ClearDeliveryClaim? then Some(Null) else None)
  }

  predicate WritesRelease(a: Record, b: Record, m: Mutation) {
    && Column(a, b, "autoReleaseSubmittedAt",
              if m.RecordAutoReleaseSubmission? then Some(Date(m.submittedAt))
              else if m.ClearAutoReleaseSubmitting? then Some(Null) else None)
    && Column(a, b, "autoReleaseTxHash",
              if m.RecordAutoReleaseSubmission? then Some(Text(m.txHash))
              else if m.MarkAutoReleased? then Some(Text(m.hash)) else None)
  }

  predicate WritesContact(a: Record, b: Record, m: Mutation) {
    && Column(a, b, "buyerContactEmail",
              if !m.SaveBuyerContact? then None
              else match m.email case Some(e) => Some(Text(e)) case None => Some(Null))
    && Column(a, b, "buyerContactPhone",
              if !m.SaveBuyerContact? then None
              else match m.phone case Some(p) => Some(Text(p)) case None => Some(Null))
  }

  /** Every column of the row after an update. */
  ghost predicate Writes(a: Record, b: Record, m: Mutation, now: Time) {
    && Has(b, "updatedAt", Date(now))
    && WritesState(a, b, m) && WritesShipment(a, b, m, now) && WritesDelivery(a, b, m, now)
    && WritesRelease(a, b, m) && WritesContact(a, b, m)
    && forall f :: f !in WRITTEN ==> Column(a, b, f, None)
  }

  lemma PatchState(row: Record, m: Mutation, now: Time)
    ensures WritesState(row, row + Patch(m, now), m)
  {}

  lemma PatchShipment(row: Record, m: Mutation, now: Time)
    ensures WritesShipment(row, row + Patch(m, now), m, now)
  {}

  lemma PatchDelivery(row: Record, m: Mutation, now: Time)
    ensures WritesDelivery(row, row + Patch(m, now), m, now)
  {}

  lemma PatchRelease(row: Record, m: Mutation, now: Time)
    ensures WritesRelease(row, row + Patch(m, now), m)
  {}

  lemma PatchContact(row: Record, m: Mutation, now: Time)
    ensures WritesContact(row, row + Patch(m, now), m)
  {}

  lemma PatchKeys(m: Mutation, now: Time)
    ensures Patch(m, now).Keys <= WRITTEN && Has(Patch(m, now), "updatedAt", Date(now))
  {}

  lemma PatchExactly(row: Record, m: Mutation, now: Time)
    ensures Writes(row, row + Patch(m, now), m, now)
  {
    hide Patch, WritesState, WritesShipment, WritesDelivery, WritesRelease, WritesContact;
    PatchState(row, m, now);
    PatchShipment(row, m, now);
    PatchDelivery(row, m, now);
    PatchRelease(row, m, now);
    PatchContact(row, m, now);
    PatchKeys(m, now);
  }

  /** The cache never throws: a failed read is a miss, a failed write or delete does nothing. */
  datatype CacheFaults = CacheFaults(getOk: bool, setOk: bool, delOk: bool)

  datatype Op =
    | Create(id: Key, row: Record, now: Time)
    | FindById(id: Key, now: Time, faults: CacheFaults)
    | Mutate(id: Key, mutation: Mutation, now: Time, faults: CacheFaults)
    | MarkAutoReleaseSubmitting(id: Key, now: Time, faults: CacheFaults)
    | ClaimDelivery(id: Key, now: Time, faults: CacheFaults)
    | InvalidateCache(id: Key, now: Time, faults: CacheFaults)
    | Forget(id: Key, now: Time)   // the cache drops a key on its own: expiry, eviction, restart

  datatype Reply = Found(record: Record) | Missing | Thrown

  function Direct(rows: map<Key, Record>, id: Key): Reply { if id in rows then Found(rows[id]) else Missing }

  function Invalidate(r: Repo, id: Key, ok: bool): Repo { if ok then r.(cache := r.cache - {id}) else r }

  predicate Hit(r: Repo, id: Key, now: Time, faults: CacheFaults) {
    faults.getOk && id in r.cache && now <= r.cache[id].expiresAt
  }

  /** Redis keeps the JSON text of a record, the in-memory cache the record itself. */
  datatype Codec = Codec(encodes: bool, dates: Dates) {
    function Store(r: Record): Record { if encodes then Encode(r, dates) else r }
  }

  function Find(r: Repo, id: Key, now: Time, faults: CacheFaults, codec: Codec): (Repo, Reply) {
    if Hit(r, id, now, faults) then
      var hit := Revived(r.cache[id].value, codec.dates);
      (r, if hit.Some? then Found(hit.value) else Thrown)
    else if id !in r.rows then (r, Missing)
    else if !faults.setOk then (r, Found(r.rows[id]))
    else (r.(cache := r.cache[id := Cached(codec.Store(r.rows[id]), now + TTL_MS)]), Found(r.rows[id]))
  }

  /** A claim stamps its column, and Prisma stamps `updatedAt`. */
  function Claim(row: Record, field: Field, now: Time): Record {
    row + map["updatedAt" := Date(now), field := Date(now)]
  }

  /** A claim writes its own column and the stamp, and nothing else. */
  ghost predicate Claims(a: Record, b: Record, field: Field, now: Time) {
    Has(b, field, Date(now)) && Has(b, "updatedAt", Date(now))
    && forall f :: f != field && f != "updatedAt" ==> Column(a, b, f, None)
  }

  predicate Unclaimed(row: Record, field: Field) { field in row && row[field].Null? }

  predicate IsShipped(row: Record) { "state" in row && row["state"] == Text("SHIPPED") }

  function Step(r: Repo, op: Op, codec: Codec): (Repo, Reply) {
    match op
    case Create(id, row, _) =>
      if id in r.rows then (r, Thrown) else (r.(rows := r.rows[id := row]), Found(row))
    case FindById(id, now, faults) => Find(r, id, now, faults, codec)
    case Mutate(id, m, now, faults) =>
      if id !in r.rows then (r, Thrown)
      else
        var row := r.rows[id] + Patch(m, now);
        (Invalidate(r.(rows := r.rows[id := row]), id, faults.delOk), Found(row))
    case MarkAutoReleaseSubmitting(id, now, faults) =>
      if id !in r.rows || !Unclaimed(r.rows[id], "autoReleaseSubmittedAt") then (r, Missing)
      else
        var written := r.(rows := r.rows[id := Claim(r.rows[id], "autoReleaseSubmittedAt", now)]);
        var (next, reply) := Find(written, id, now, faults, codec);
        (Invalidate(next, id, faults.delOk), reply)
    case ClaimDelivery(id, now, faults) =>
      if id !in r.rows || !IsShipped(r.rows[id]) || !Unclaimed(r.rows[id], "deliveryRecordedAt") then (r, Missing)
      else
        var row := Claim(r.rows[id], "deliveryRecordedAt", now);
        (Invalidate(r.(rows := r.rows[id := row]), id, faults.delOk), Found(row))
    case InvalidateCache(id, _, faults) => (Invalidate(r, id, faults.delOk), Missing)
    case Forget(id, _) => (Invalidate(r, id, true), Missing)
  }

  /** The same operation on the table alone. */
  function Plain(rows: map<Key, Record>, op: Op): (map<Key, Record>, Reply) {
    match op
    case Create(id, row, _) => if id in rows then (rows, Thrown) else (rows[id := row], Found(row))
    case FindById(id, _, _) => (rows, Direct(rows, id))
    case Mutate(id, m, now, _) =>
      if id !in rows then (rows, Thrown)
      else (rows[id := rows[id] + Patch(m, now)], Found(rows[id] + Patch(m, now)))
    case MarkAutoReleaseSubmitting(id, now, _) =>
      if id !in rows || !Unclaimed(rows[id], "autoReleaseSubmittedAt") then (rows, Missing)
      else
        var row := Claim(rows[id], "autoReleaseSubmittedAt", now);
        (rows[id := row], Found(row))
    case ClaimDelivery(id, now, _) =>
      if id !in rows || !IsShipped(rows[id]) || !Unclaimed(rows[id], "deliveryRecordedAt") then (rows, Missing)
      else
        var row := Claim(rows[id], "deliveryRecordedAt", now);
        (rows[id := row], Found(row))
    case InvalidateCache(_, _, _) => (rows, Missing)
    case Forget(_, _) => (rows, Missing)
  }

  /** Each operation on the table alone: its answer, and the columns it leaves. */
  lemma PlainExactly(rows: map<Key, Record>, op: Op)
    ensures var (next, reply) := Plain(rows, op);
            match op
            case Create(id, row, _) =>
              if id in rows then reply == Thrown && next == rows else reply == Found(row) && next == rows[id := row]
            case Mutate(id, m, now, _) =>
              if id !in rows then reply == Thrown && next == rows
              else && id in next && next == rows[id := next[id]] && reply == Found(next[id])
                   && Writes(rows[id], next[id], m, now)
            case MarkAutoReleaseSubmitting(id, now, _) =>
              if id in rows && Has(rows[id], "autoReleaseSubmittedAt", Null)
              then && id in next && next == rows[id := next[id]] && reply == Found(next[id])
                   && Claims(rows[id], next[id], "autoReleaseSubmittedAt", now)
              else reply == Missing && next == rows
            case ClaimDelivery(id, now, _) =>
              if id in rows && Has(rows[id], "deliveryRecordedAt", Null) && Has(rows[id], "state", Text("SHIPPED"))
              then && id in next && next == rows[id := next[id]] && reply == Found(next[id])
                   && Claims(rows[id], next[id], "deliveryRecordedAt", now)
              else reply == Missing && next == rows
            case FindById(id, _, _) => next == rows && reply == if id in rows then Found(rows[id]) else Missing
            case _ => next == rows && reply == Missing
  {
    hide Patch, Writes;
    if op.Mutate? && op.id in rows { PatchExactly(rows[op.id], op.mutation, op.now); }
  }

  function Run(r: Repo, ops: seq<Op>, codec: Codec): Repo
    decreases |ops|
  {
    if ops == [] then r else Run(Step(r, ops[0], codec).0, ops[1..], codec)
  }

  // ── Coherence ─────────────────────────────────────────────────────────────

  predicate DelFails(op: Op) { !op.Create? && !op.Forget? && !op.FindById? && !op.faults.delOk }

  /** Operations in time order, none before `clock`, creating only rows of the schema's types. */
  predicate Legal(ops: seq<Op>, clock: Time)
    decreases |ops|
  {
    ops != [] ==> clock <= ops[0].now && (ops[0].Create? ==> Typed(ops[0].row)) && Legal(ops[1..], ops[0].now)
  }

  function Clock(ops: seq<Op>, clock: Time): Time { if ops == [] then clock else Clock(ops[1..], ops[0].now) }

  /** The time of the last failed delete. */
  function LastFailure(ops: seq<Op>, before: Option<Time>): Option<Time>
    decreases |ops|
  {
    if ops == [] then before
    else LastFailure(ops[1..], if DelFails(ops[0]) then Some(ops[0].now) else before)
  }

  predicate Fresh(r: Repo, id: Key, codec: Codec)
    requires id in r.cache
  {
    id in r.rows && Revived(r.cache[id].value, codec.dates) == Some(r.rows[id])
  }

  /** An entry equals its row, or was already there when a delete failed and so expires within a TTL of that. */
  ghost predicate Coherent(r: Repo, clock: Time, failure: Option<Time>, codec: Codec) {
    && Inverse(codec.dates)
    && (forall id :: id in r.rows ==> Typed(r.rows[id]))
    && (forall id :: id in r.cache ==>
          && r.cache[id].expiresAt <= clock + TTL_MS
          && Revived(r.cache[id].value, codec.dates).Some?
          && (Fresh(r, id, codec) || (failure.Some? && r.cache[id].expiresAt <= failure.value + TTL_MS)))
  }

  lemma PatchTyped(m: Mutation, now: Time)
    ensures Typed(Patch(m, now))
  {}

  /** Storing a record and reading it back gives the record, on Redis and in memory. */
  lemma StoreRevives(row: Record, codec: Codec)
    requires Typed(row) && Inverse(codec.dates)
    ensures Revived(codec.Store(row), codec.dates) == Some(row)
  {
    ReviveUndoesEncode(row, codec.dates);
  }

  lemma FindKeeps(r: Repo, id: Key, now: Time, faults: CacheFaults, codec: Codec, failure: Option<Time>)
    requires Coherent(r, now, failure, codec)
    ensures var (n, reply) := Find(r, id, now, faults, codec);
            && n.rows == r.rows && Coherent(n, now, failure, codec)
            && !reply.Thrown?
            && (!Hit(r, id, now, faults) || Fresh(r, id, codec) ==> reply == Direct(r.rows, id))
  {
    hide Typed, Revived, Inverse;
    if id in r.rows { StoreRevives(r.rows[id], codec); }
  }

  /** A write to a row followed by deleting its key. */
  lemma WriteKeeps(r: Repo, id: Key, row: Record, ok: bool, now: Time, failure: Option<Time>, codec: Codec)
    requires Coherent(r, now, failure, codec) && Typed(row)
    requires failure.Some? ==> failure.value <= now
    ensures Coherent(Invalidate(r.(rows := r.rows[id := row]), id, ok), now, if ok then failure else Some(now), codec)
  {
    hide Typed, Revived, Inverse;
  }

  lemma MergeTyped(a: Record, b: Record)
    requires Typed(a) && Typed(b)
    ensures Typed(a + b)
  {}

  lemma ClaimTyped(row: Record, field: Field, now: Time)
    requires Typed(row) && field in DATE_FIELDS
    ensures Typed(Claim(row, field, now))
  {
    assert "updatedAt" in DATE_FIELDS;
  }

  /** A read between the write and the delete adds nothing that outlives the delete. */
  lemma FindThenDelete(r: Repo, id: Key, now: Time, faults: CacheFaults, codec: Codec)
    ensures Invalidate(Find(r, id, now, faults, codec).0, id, true) == Invalidate(r, id, true)
  {}

  lemma ClaimKeeps(r: Repo, op: Op, failure: Option<Time>, codec: Codec)
    requires op.MarkAutoReleaseSubmitting? && op.id in r.rows && Coherent(r, op.now, failure, codec)
    requires failure.Some? ==> failure.value <= op.now
    ensures var written := r.(rows := r.rows[op.id := Claim(r.rows[op.id], "autoReleaseSubmittedAt", op.now)]);
            var next := Invalidate(Find(written, op.id, op.now, op.faults, codec).0, op.id, op.faults.delOk);
            && next.rows == written.rows
            && Coherent(next, op.now, if op.faults.delOk then failure else Some(op.now), codec)
  {
    hide Revived, Inverse, Typed, Find;
    var row := Claim(r.rows[op.id], "autoReleaseSubmittedAt", op.now);
    var written := r.(rows := r.rows[op.id := row]);
    ClaimTyped(r.rows[op.id], "autoReleaseSubmittedAt", op.now);
    WriteKeeps(r, op.id, row, op.faults.delOk, op.now, failure, codec);
    WriteKeeps(r, op.id, row, false, op.now, failure, codec);
    FindKeeps(written, op.id, op.now, op.faults, codec, Some(op.now));
    FindThenDelete(written, op.id, op.now, op.faults, codec);
  }

  lemma LaterKeeps(r: Repo, clock: Time, now: Time, failure: Option<Time>, codec: Codec)
    requires Coherent(r, clock, failure, codec) && clock <= now
    ensures Coherent(r, now, failure, codec)
  {}

  lemma CreateKeeps(r: Repo, id: Key, row: Record, now: Time, failure: Option<Time>, codec: Codec)
    requires Coherent(r, now, failure, codec) && Typed(row) && id !in r.rows
    ensures Coherent(r.(rows := r.rows[id := row]), now, failure, codec)
  {
    hide Revived, Inverse, Typed;
  }

  lemma DropKeeps(r: Repo, id: Key, ok: bool, now: Time, failure: Option<Time>, codec: Codec)
    requires Coherent(r, now, failure, codec) && (failure.Some? ==> failure.value <= now)
    ensures Coherent(Invalidate(r, id, ok), now, failure, codec)
    ensures Coherent(Invalidate(r, id, ok), now, Some(now), codec)
  {
    hide Revived, Inverse, Typed;
  }

  lemma InvalidateRows(r: Repo, id: Key, ok: bool)
    ensures Invalidate(r, id, ok).rows == r.rows
    ensures !ok ==> Invalidate(r, id, ok) == r
  {}

  lemma RowsTyped(r: Repo, now: Time, failure: Option<Time>, codec: Codec)
    requires Coherent(r, now, failure, codec)
    ensures forall id :: id in r.rows ==> Typed(r.rows[id])
  {}

  lemma StepKeepsCoherent(r: Repo, op: Op, clock: Time, failure: Option<Time>, codec: Codec)
    requires Coherent(r, clock, failure, codec) && clock <= op.now && (op.Create? ==> Typed(op.row))
    requires failure.Some? ==> failure.value <= clock
    ensures Coherent(Step(r, op, codec).0, op.now, if DelFails(op) then Some(op.now) else failure, codec)
    ensures Step(r, op, codec).0.rows == Plain(r.rows, op).0
  {
    hide Coherent, Invalidate, Inverse, Typed, Find, Patch, Claim, Unclaimed, IsShipped;
    LaterKeeps(r, clock, op.now, failure, codec);
    RowsTyped(r, op.now, failure, codec);
    match op
    case Create(id, row, now) =>
      if id !in r.rows { CreateKeeps(r, id, row, now, failure, codec); }
    case FindById(id, now, faults) => FindKeeps(r, id, now, faults, codec, failure);
    case Mutate(id, m, now, faults) =>
      if id in r.rows {
        PatchTyped(m, now);
        MergeTyped(r.rows[id], Patch(m, now));
        WriteKeeps(r, id, r.rows[id] + Patch(m, now), faults.delOk, now, failure, codec);
        InvalidateRows(r.(rows := r.rows[id := r.rows[id] + Patch(m, now)]), id, faults.delOk);
      }
      DropKeeps(r, id, false, now, failure, codec);
      InvalidateRows(r, id, false);
    case MarkAutoReleaseSubmitting(id, now, faults) =>
      if id in r.rows { ClaimKeeps(r, op, failure, codec); }
      DropKeeps(r, id, false, now, failure, codec);
      InvalidateRows(r, id, false);
    case ClaimDelivery(id, now, faults) =>
      if id in r.rows {
        var row := Claim(r.rows[id], "deliveryRecordedAt", now);
        ClaimTyped(r.rows[id], "deliveryRecordedAt", now);
        WriteKeeps(r, id, row, faults.delOk, now, failure, codec);
        InvalidateRows(r.(rows := r.rows[id := row]), id, faults.delOk);
      }
      DropKeeps(r, id, false, now, failure, codec);
      InvalidateRows(r, id, false);
    case InvalidateCache(id, now, faults) =>
      DropKeeps(r, id, faults.delOk, now, failure, codec);
      InvalidateRows(r, id, faults.delOk);
    case Forget(id, now) =>
      DropKeeps(r, id, true, now, failure, codec);
      InvalidateRows(r, id, true);
  }

  function RunPlain(rows: map<Key, Record>, ops: seq<Op>): map<Key, Record>
    decreases |ops|
  {
    if ops == [] then rows else RunPlain(Plain(rows, ops[0]).0, ops[1..])
  }

  lemma {:induction false} RunKeepsCoherent(r: Repo, ops: seq<Op>, clock: Time, failure: Option<Time>, codec: Codec)
    requires Coherent(r, clock, failure, codec) && Legal(ops, clock)
    requires failure.Some? ==> failure.value <= clock
    ensures Coherent(Run(r, ops, codec), Clock(ops, clock), LastFailure(ops, failure), codec)
    ensures Run(r, ops, codec).rows == RunPlain(r.rows, ops)
    decreases |ops|
  {
    hide Coherent, Step, Plain;
    if ops != [] {
      StepKeepsCoherent(r, ops[0], clock, failure, codec);
      RunKeepsCoherent(Step(r, ops[0], codec).0, ops[1..], ops[0].now,
                       if DelFails(ops[0]) then Some(ops[0].now) else failure, codec);
    }
  }

  function Start(rows: map<Key, Record>): Repo { Repo(rows, map[]) }

  ghost predicate GoodStart(rows: map<Key, Record>, codec: Codec) {
    Inverse(codec.dates) && forall id :: id in rows ==> Typed(rows[id])
  }

  lemma FindIsFind(r: Repo, op: Op, codec: Codec)
    requires op.FindById?
    ensures Step(r, op, codec) == Find(r, op.id, op.now, op.faults, codec)
  {}

  /** A write answers with the row it wrote, whatever the cache holds. */
  lemma WritesAnswerFresh(r: Repo, op: Op, codec: Codec)
    requires !op.FindById? && !op.MarkAutoReleaseSubmitting?
    ensures Step(r, op, codec).1 == Plain(r.rows, op).1
  {}

  lemma DirectIsPlain(rows: map<Key, Record>, op: Op)
    requires op.FindById?
    ensures Plain(rows, op).1 == Direct(rows, op.id)
  {}

  /**
   * After any operations, on Redis or in memory and whatever cache calls fail, the table is that of
   * the uncached repository, and the next operation answers as without a cache: a `findById` unless it
   * comes within one TTL of a failed delete, and everything else but a claim for auto-release always.
   */
  lemma CachedRefinesPlain(rows: map<Key, Record>, ops: seq<Op>, clock: Time, codec: Codec, op: Op)
    requires GoodStart(rows, codec) && Legal(ops, clock) && Clock(ops, clock) <= op.now
    ensures var r, failure := Run(Start(rows), ops, codec), LastFailure(ops, None);
            && r.rows == RunPlain(rows, ops)
            && (!op.MarkAutoReleaseSubmitting?
                && (op.FindById? ==> failure.None? || op.now > failure.value + 60000)
                ==> Step(r, op, codec).1 == Plain(RunPlain(rows, ops), op).1)
  {
    hide Inverse, Typed, Find, Step, Plain, Run, RunPlain, Legal, Clock, LastFailure;
    RunKeepsCoherent(Start(rows), ops, clock, None, codec);
    var r := Run(Start(rows), ops, codec);
    if op.FindById? {
      LaterKeeps(r, Clock(ops, clock), op.now, LastFailure(ops, None), codec);
      FindKeeps(r, op.id, op.now, op.faults, codec, LastFailure(ops, None));
      FindIsFind(r, op, codec);
      DirectIsPlain(r.rows, op);
    } else if !op.MarkAutoReleaseSubmitting? {
      WritesAnswerFresh(r, op, codec);
    }
  }

  /**
   * The record returned by a successful auto-release claim is the claimed row exactly when the read
   * that follows the update misses the cache; on a hit it is the row from before the claim.
   */
  lemma ClaimAnswerExactly(r: Repo, op: Op, codec: Codec)
    requires Coherent(r, op.now, None, codec) && op.MarkAutoReleaseSubmitting?
    requires op.id in r.rows && Unclaimed(r.rows[op.id], "autoReleaseSubmittedAt")
    ensures Step(r, op, codec).1 == Plain(r.rows, op).1 <==> !Hit(r, op.id, op.now, op.faults)
    ensures Hit(r, op.id, op.now, op.faults) ==> Step(r, op, codec).1 == Found(r.rows[op.id])
  {
    hide Revived, Inverse, Typed;
    var row := r.rows[op.id];
    var claimed := Claim(row, "autoReleaseSubmittedAt", op.now);
    assert claimed["autoReleaseSubmittedAt"] != row["autoReleaseSubmittedAt"];
  }

  /** A write whose delete failed is seen by the next read exactly when the old entry does not answer it. */
  lemma FailedDeleteExactly(r: Repo, write: Op, find: Op, codec: Codec)
    requires write.Mutate? && !write.faults.delOk && write.id in r.rows && Coherent(r, write.now, None, codec)
    requires find.FindById? && find.id == write.id && write.now <= find.now
    requires r.rows[write.id] + Patch(write.mutation, write.now) != r.rows[write.id]
    ensures var next := Step(r, write, codec).0;
            Step(next, find, codec).1 == Direct(next.rows, write.id) <==> !Hit(r, write.id, find.now, find.faults)
  {
    hide Revived, Inverse, Typed, Patch;
  }

  // ── The repository object ─────────────────────────────────────────────────

  class EscrowRepository {
    const codec: Codec
    var rows: map<Key, Record>
    var cache: map<Key, Cached>

    constructor (rows: map<Key, Record>, codec: Codec)
      ensures this.rows == rows && cache == map[] && this.codec == codec
    {
      this.rows := rows;
      cache := map[];
      this.codec := codec;
    }

    function Repository(): Repo
      reads this
    {
      Repo(rows, cache)
    }

    /** The private delete of a cache key. */
    method DeleteKey(id: Key, ok: bool)
      modifies this`cache
      ensures Repository() == Invalidate(old(Repository()), id, ok)
    {
      if ok { cache := cache - {id}; }
    }

    method FindRecord(id: Key, now: Time, faults: CacheFaults) returns (reply: Reply)
      modifies this`cache
      ensures (Repository(), reply) == Step(old(Repository()), FindById(id, now, faults), codec)
      ensures var hit := faults.getOk && id in old(cache) && now <= old(cache)[id].expiresAt;
              && (hit ==> cache == old(cache))
              && (!hit ==> reply == if id in rows then Found(rows[id]) else Missing)
              && (!hit && faults.setOk && id in rows ==>
                    && cache.Keys == old(cache).Keys + {id} && cache[id].expiresAt == now + 60000
                    && forall k :: k in cache && k != id ==> cache[k] == old(cache)[k])
    {
      if faults.getOk && id in cache && now <= cache[id].expiresAt {
        var hit := ReviveCachedEscrow(cache[id].value, codec.dates);
        return if hit.Some? then Found(hit.value) else Thrown;
      }
      if id !in rows { return Missing; }
      var record := rows[id];
      if faults.setOk { cache := cache[id := Cached(codec.Store(record), now + TTL_MS)]; }
      return Found(record);
    }

    method Update(id: Key, mutation: Mutation, now: Time, faults: CacheFaults) returns (reply: Reply)
      modifies this
      ensures (Repository(), reply) == Step(old(Repository()), Mutate(id, mutation, now, faults), codec)
      ensures reply.Thrown? <==> id !in old(rows)
      ensures reply.Thrown? ==> rows == old(rows) && cache == old(cache)
      ensures !reply.Thrown? ==>
                && reply == Found(rows[id]) && Writes(old(rows)[id], rows[id], mutation, now)
                && rows == old(rows)[id := rows[id]]
                && cache == if faults.delOk then old(cache) - {id} else old(cache)
    {
      if id in rows { PatchExactly(rows[id], mutation, now); }
      if id !in rows { return Thrown; }
      var row := rows[id] + Patch(mutation, now);
      rows := rows[id := row];
      DeleteKey(id, faults.delOk);
      return Found(row);
    }

    method ClaimRelease(id: Key, now: Time, faults: CacheFaults) returns (reply: Reply)
      modifies this
      ensures (Repository(), reply) == Step(old(Repository()), MarkAutoReleaseSubmitting(id, now, faults), codec)
      ensures if id in old(rows) && Has(old(rows)[id], "autoReleaseSubmittedAt", Null)
              then rows == old(rows)[id := rows[id]] && Claims(old(rows)[id], rows[id], "autoReleaseSubmittedAt", now)
              else reply == Missing && rows == old(rows) && cache == old(cache)
    {
      if id !in rows || !Unclaimed(rows[id], "autoReleaseSubmittedAt") { return Missing; }
      rows := rows[id := Claim(rows[id], "autoReleaseSubmittedAt", now)];
      reply := FindRecord(id, now, faults);
      DeleteKey(id, faults.delOk);
    }

    method ClaimForDelivery(id: Key, now: Time, faults: CacheFaults) returns (reply: Reply)
      modifies this
      ensures (Repository(), reply) == Step(old(Repository()), ClaimDelivery(id, now, faults), codec)
      ensures if id in old(rows) && Has(old(rows)[id], "deliveryRecordedAt", Null)
                 && Has(old(rows)[id], "state", Text("SHIPPED"))
              then && rows == old(rows)[id := rows[id]] && Claims(old(rows)[id], rows[id], "deliveryRecordedAt", now)
                   && reply == Found(rows[id]) && (faults.delOk ==> id !in cache)
              else reply == Missing && rows == old(rows) && cache == old(cache)
    {
      if id !in rows || !IsShipped(rows[id]) || !Unclaimed(rows[id], "deliveryRecordedAt") { return Missing; }
      var row := Claim(rows[id], "deliveryRecordedAt", now);
      rows := rows[id := row];
      DeleteKey(id, faults.delOk);
      return Found(row);
    }
  }
}
