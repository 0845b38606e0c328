/** `stableStringify`: a canonical text for JSON values, and the idempotency check built on it. */
module StableJson {

  /** A UTF-16 code unit. */
  type Unit = u: int | 0 <= u < 0x1_0000
  type Text = seq<Unit>

  const QUOTE: Unit := 0x22
  const PLUS: Unit := 0x2B
  const COMMA: Unit := 0x2C
  const MINUS: Unit := 0x2D
  const DOT: Unit := 0x2E
  const COLON: Unit := 0x3A
  const BACKSLASH: Unit := 0x5C
  const OPEN_ARRAY: Unit := 0x5B
  const CLOSE_ARRAY: Unit := 0x5D
  const OPEN_OBJECT: Unit := 0x7B
  const CLOSE_OBJECT: Unit := 0x7D

  const TRUE: Text := [0x74, 0x72, 0x75, 0x65]
  const FALSE: Text := [0x66, 0x61, 0x6C, 0x73, 0x65]
  const NULL: Text := [0x6E, 0x75, 0x6C, 0x6C]

  /** A finite number is represented by the text JavaScript prints for it. */
  datatype Json =
    | Undef
    | Null
    | Bool(b: bool)
    | Num(text: Text)
    | NonFinite
    | Str(s: Text)
    | Arr(items: Items)
    | Obj(fields: Fields)

  datatype Items = NoItems | Item(head: Json, tail: Items)

  /** The own properties of an object, in insertion order. */
  datatype Fields = NoFields | Field(key: Text, val: Json, rest: Fields)

  predicate NumUnit(u: Unit) {
    0x30 <= u <= 0x39 || u == PLUS || u == MINUS || u == DOT || u == 0x65
  }

  /** Non-empty, and beginning with a digit or a minus sign. */
  predicate NumText(t: Text) {
    && t != []
    && (0x30 <= t[0] <= 0x39 || t[0] == MINUS)
    && forall i :: 0 <= i < |t| ==> NumUnit(t[i])
  }

  function Keys(fs: Fields): set<Text> {
    match fs case NoFields => {} case Field(k, _, rest) => {k} + Keys(rest)
  }

  predicate Valid(v: Json) {
    match v
    case Num(t) => NumText(t)
    case Arr(items) => ValidItems(items)
    case Obj(fields) => ValidFields(fields)
    case _ => true
  }

  predicate ValidItems(xs: Items) {
    match xs case NoItems => true case Item(v, r) => Valid(v) && ValidItems(r)
  }

  /** Property names of one object are distinct. */
  predicate ValidFields(fs: Fields) {
    match fs case NoFields => true case Field(k, v, r) => k !in Keys(r) && Valid(v) && ValidFields(r)
  }

  function Size(v: Json): nat {
    match v
    case Arr(items) => 1 + SizeItems(items)
    case Obj(fields) => 1 + SizeFields(fields)
    case _ => 1
  }

  function SizeItems(xs: Items): nat { match xs case NoItems => 0 case Item(v, r) => 1 + Size(v) + SizeItems(r) }

  function SizeFields(fs: Fields): nat {
    match fs case NoFields => 0 case Field(_, v, r) => 1 + Size(v) + SizeFields(r)
  }

  // ── Strings ───────────────────────────────────────────────────────────────

  predicate High(u: Unit) { 0xD800 <= u < 0xDC00 }
  predicate Low(u: Unit) { 0xDC00 <= u < 0xE000 }

  function HexDigit(d: nat): Unit
    requires d < 16
  {
    if d < 10 then 0x30 + d else 0x57 + d
  }

  function HexValue(u: Unit): nat { if 0x30 <= u <= 0x39 then u - 0x30 else if u >= 0x57 then u - 0x57 else 0 }

  /** `\uXXXX`. */
  function Hex(u: Unit): Text {
    [BACKSLASH, 0x75, HexDigit(u / 4096), HexDigit(u / 256 % 16), HexDigit(u / 16 % 16), HexDigit(u % 16)]
  }

  function Escape(u: Unit): Text {
    if u == QUOTE || u == BACKSLASH then [BACKSLASH, u]
    else if u == 0x08 then [BACKSLASH, 0x62]
    else if u == 0x09 then [BACKSLASH, 0x74]
    else if u == 0x0A then [BACKSLASH, 0x6E]
    else if u == 0x0C then [BACKSLASH, 0x66]
    else if u == 0x0D then [BACKSLASH, 0x72]
    else if u < 0x20 then Hex(u)
    else [u]
  }

  /** `JSON.stringify` of a string without its quotes: a lone surrogate is escaped, a pair is not. */
  function Escaped(s: Text): Text {
    if s == [] then []
    else if High(s[0]) && |s| > 1 && Low(s[1]) then [s[0], s[1]] + Escaped(s[2..])
    else if High(s[0]) || Low(s[0]) then Hex(s[0]) + Escaped(s[1..])
    else Escape(s[0]) + Escaped(s[1..])
  }

  function Quote(s: Text): Text { [QUOTE] + Escaped(s) + [QUOTE] }

  // ── stableStringify ───────────────────────────────────────────────────────

  /** Code-unit order, the default order of `Array.prototype.sort` on strings. */
  predicate Less(a: Text, b: Text) {
    b != [] && (a == [] || a[0] < b[0] || (a[0] == b[0] && Less(a[1..], b[1..])))
  }

  function Insert(k: Text, v: Json, fs: Fields): (r: Fields)
    ensures SizeFields(r) == SizeFields(fs) + Size(v) + 1
  {
    match fs
    case NoFields => Field(k, v, NoFields)
    case Field(k', v', rest) =>
      if Less(k', k) then Field(k', v', Insert(k, v, rest)) else Field(k, v, fs)
  }

  /** The defined properties in key order. */
  function Sorted(fs: Fields): (r: Fields)
    ensures SizeFields(r) <= SizeFields(fs)
  {
    match fs
    case NoFields => NoFields
    case Field(k, v, rest) => if v.Undef? then Sorted(rest) else Insert(k, v, Sorted(rest))
  }

  function StableStringify(v: Json): Text
    decreases Size(v)
  {
    match v
    case Arr(items) => [OPEN_ARRAY] + StringifyItems(items) + [CLOSE_ARRAY]
    case Obj(fields) => [OPEN_OBJECT] + StringifyFields(Sorted(fields)) + [CLOSE_OBJECT]
    case Bool(b) => if b then TRUE else FALSE
    case Num(t) => t
    case Str(s) => Quote(s)
    case _ => NULL
  }

  /** The printed items joined by commas. */
  function StringifyItems(xs: Items): Text
    decreases SizeItems(xs)
  {
    match xs
    case NoItems => []
    case Item(v, NoItems) => StableStringify(v)
    case Item(v, r) => StableStringify(v) + [COMMA] + StringifyItems(r)
  }

  function StringifyFields(fs: Fields): Text
    decreases SizeFields(fs)
  {
    match fs
    case NoFields => []
    case Field(k, v, NoFields) => Quote(k) + [COLON] + StableStringify(v)
    case Field(k, v, r) => Quote(k) + [COLON] + StableStringify(v) + [COMMA] + StringifyFields(r)
  }

  // ── When two values count as the same body ────────────────────────────────

  predicate Blank(v: Json) { v.Undef? || v.Null? || v.NonFinite? }

  predicate Has(fs: Fields, k: Text) {
    match fs case NoFields => false case Field(k', v, r) => if k' == k then !v.Undef? else Has(r, k)
  }

  function Get(fs: Fields, k: Text): (v: Json)
    requires Has(fs, k)
    ensures Size(v) < SizeFields(fs) && !v.Undef?
  {
    if fs.key == k then fs.val else Get(fs.rest, k)
  }

  /** Equal up to the order of keys, undefined properties, and which blank stands in a place. */
  ghost predicate Same(v: Json, w: Json)
    decreases Size(v)
  {
    match (v, w)
    case (Arr(xs), Arr(ys)) => SameItems(xs, ys)
    case (Obj(fs), Obj(gs)) =>
      && (forall k :: Has(fs, k) <==> Has(gs, k))
      && (forall k :: Has(fs, k) && Has(gs, k) ==> Same(Get(fs, k), Get(gs, k)))
    case _ => v == w || (Blank(v) && Blank(w))
  }

  ghost predicate SameItems(xs: Items, ys: Items)
    decreases SizeItems(xs)
  {
    match (xs, ys)
    case (NoItems, NoItems) => true
    case (Item(v, r), Item(w, q)) => Same(v, w) && SameItems(r, q)
    case _ => false
  }
}
