/** The text of `stableStringify` determines the value, and nothing more than the value. */
module StableJsonProofs {
  import opened StableJson

  // ── Strings read back ─────────────────────────────────────────────────────

  /** A string literal's content and what follows its closing quote. */
  datatype Reading = Bad | Good(s: Text, rest: Text)

  function Prepend(u: Unit, r: Reading): Reading {
    match r case Bad => Bad case Good(s, rest) => Good([u] + s, rest)
  }

  function Short(u: Unit): Unit {
    if u == 0x62 then 0x08 else if u == 0x74 then 0x09 else if u == 0x6E then 0x0A
    else if u == 0x66 then 0x0C else if u == 0x72 then 0x0D else u
  }

  function Unhex(a: Unit, b: Unit, c: Unit, d: Unit): Unit {
    (4096 * HexValue(a) + 256 * HexValue(b) + 16 * HexValue(c) + HexValue(d)) % 0x1_0000
  }

  function Read(t: Text): Reading {
    if t == [] then Bad
    else if t[0] == QUOTE then Good([], t[1..])
    else if t[0] != BACKSLASH then Prepend(t[0], Read(t[1..]))
    else if |t| < 2 then Bad
    else if t[1] != 0x75 then Prepend(Short(t[1]), Read(t[2..]))
    else if |t| < 6 then Bad
    else Prepend(Unhex(t[2], t[3], t[4], t[5]), Read(t[6..]))
  }

  lemma HexDigits(u: Unit)
    ensures u == 4096 * (u / 4096) + 256 * (u / 256 % 16) + 16 * (u / 16 % 16) + u % 16
  {
    var a, b := u / 256, u / 16;
    assert u == 16 * b + u % 16;
    assert b == 16 * a + b % 16;
    assert a == 16 * (a / 16) + a % 16;
  }

  lemma HexDigitBack(n: nat)
    requires n < 16
    ensures HexValue(HexDigit(n)) == n
  {}

  lemma UnhexHex(u: Unit)
    ensures Unhex(Hex(u)[2], Hex(u)[3], Hex(u)[4], Hex(u)[5]) == u
  {
    HexDigits(u);
    hide HexDigit, HexValue;
    HexDigitBack(u / 4096);
    HexDigitBack(u / 256 % 16);
    HexDigitBack(u / 16 % 16);
    HexDigitBack(u % 16);
  }

  lemma ReadHex(u: Unit, w: Text)
    ensures Read(Hex(u) + w) == Prepend(u, Read(w))
  {
    var t := Hex(u) + w;
    UnhexHex(u);
    assert t[..6] == Hex(u) && t[6..] == w;
    assert t[0] == BACKSLASH && t[1] == 0x75;
    assert t[2] == Hex(u)[2] && t[3] == Hex(u)[3] && t[4] == Hex(u)[4] && t[5] == Hex(u)[5];
  }

  lemma ReadPlain(u: Unit, w: Text)
    requires u != QUOTE && u != BACKSLASH
    ensures Read([u] + w) == Prepend(u, Read(w))
  {
    assert ([u] + w)[1..] == w;
  }

  lemma ReadShort(x: Unit, w: Text)
    requires x != 0x75
    ensures Read([BACKSLASH, x] + w) == Prepend(Short(x), Read(w))
  {
    hide Short;
    assert ([BACKSLASH, x] + w)[2..] == w;
  }

  lemma ReadEscape(u: Unit, w: Text)
    ensures Read(Escape(u) + w) == Prepend(u, Read(w))
  {
    hide Read, Hex;
    var e := Escape(u);
    if e == [u] {
      ReadPlain(u, w);
    } else if e == Hex(u) {
      ReadHex(u, w);
    } else {
      ReadShort(e[1], w);
    }
  }

  lemma ReadEnd(x: Text)
    ensures Read([QUOTE] + x) == Good([], x)
  {
    assert ([QUOTE] + x)[1..] == x;
  }

  lemma Assoc(a: Text, b: Text, c: Text)
    ensures (a + b) + c == a + (b + c)
  {}

  lemma {:induction false} ReadEscaped(s: Text, x: Text)
    ensures Read(Escaped(s) + ([QUOTE] + x)) == Good(s, x)
    decreases |s|
  {
    hide Read, Escape, Hex;
    var q := [QUOTE] + x;
    if s == [] {
      assert Escaped(s) + q == q;
      ReadEnd(x);
    } else if High(s[0]) && |s| > 1 && Low(s[1]) {
      var rest := Escaped(s[2..]);
      ReadEscaped(s[2..], x);
      ReadPlain(s[1], rest + q);
      ReadPlain(s[0], [s[1]] + (rest + q));
      assert [s[0]] + [s[1]] == [s[0], s[1]] && s == [s[0], s[1]] + s[2..];
      Assoc([s[0], s[1]], rest, q);
      Assoc([s[0]], [s[1]], rest + q);
      Assoc([s[0]], [s[1]], s[2..]);
    } else {
      var rest := Escaped(s[1..]);
      ReadEscaped(s[1..], x);
      if High(s[0]) || Low(s[0]) {
        ReadHex(s[0], rest + q);
        Assoc(Hex(s[0]), rest, q);
      } else {
        ReadEscape(s[0], rest + q);
        Assoc(Escape(s[0]), rest, q);
      }
    }
  }

  /** A quoted string ends itself: neither its content nor what follows can be mistaken. */
  lemma QuotePrefix(s: Text, t: Text, x: Text, y: Text)
    requires Quote(s) + x == Quote(t) + y
    ensures s == t && x == y
  {
    hide Escaped, Read;
    assert (Quote(s) + x)[1..] == Escaped(s) + ([QUOTE] + x);
    assert (Quote(t) + y)[1..] == Escaped(t) + ([QUOTE] + y);
    ReadEscaped(s, x);
    ReadEscaped(t, y);
  }

  // ── Normal forms ──────────────────────────────────────────────────────────

  /** Blanks made null, undefined properties dropped, keys sorted, at every level. */
  function Norm(v: Json): Json
    decreases Size(v)
  {
    match v
    case Arr(xs) => Arr(NormItems(xs))
    case Obj(fs) => Obj(NormFields(Sorted(fs)))
    case _ => if Blank(v) then Null else v
  }

  function NormItems(xs: Items): Items
    decreases SizeItems(xs)
  {
    match xs case NoItems => NoItems case Item(v, r) => Item(Norm(v), NormItems(r))
  }

  function NormFields(fs: Fields): Fields
    decreases SizeFields(fs)
  {
    match fs case NoFields => NoFields case Field(k, v, r) => Field(k, Norm(v), NormFields(r))
  }

  /** A normal form printed as it stands. */
  function Raw(v: Json): Text {
    match v
    case Arr(xs) => [OPEN_ARRAY] + RawItems(xs) + [CLOSE_ARRAY]
    case Obj(fs) => [OPEN_OBJECT] + RawFields(fs) + [CLOSE_OBJECT]
    case Bool(b) => if b then TRUE else FALSE
    case Num(t) => t
    case Str(s) => Quote(s)
    case _ => NULL
  }

  function RawItems(xs: Items): Text {
    match xs
    case NoItems => []
    case Item(v, r) => if r.NoItems? then Raw(v) else Raw(v) + [COMMA] + RawItems(r)
  }

  function RawFields(fs: Fields): Text {
    match fs
    case NoFields => []
    case Field(k, v, r) =>
      if r.NoFields? then Quote(k) + [COLON] + Raw(v) else Quote(k) + [COLON] + Raw(v) + [COMMA] + RawFields(r)
  }

  lemma {:induction false} PrintsNormalForm(v: Json)
    ensures StableStringify(v) == Raw(Norm(v))
    decreases Size(v)
  {
    match v {
      case Arr(xs) => PrintsNormalItems(xs);
      case Obj(fs) => PrintsNormalFields(Sorted(fs));
      case _ =>
    }
  }

  lemma {:induction false} PrintsNormalItems(xs: Items)
    ensures StringifyItems(xs) == RawItems(NormItems(xs))
    decreases SizeItems(xs)
  {
    if xs.Item? {
      PrintsNormalForm(xs.head);
      PrintsNormalItems(xs.tail);
    }
  }

  lemma {:induction false} PrintsNormalFields(fs: Fields)
    ensures StringifyFields(fs) == RawFields(NormFields(fs))
    decreases SizeFields(fs)
  {
    if fs.Field? {
      PrintsNormalForm(fs.val);
      PrintsNormalFields(fs.rest);
    }
  }

  /** No blanks but null, and number texts well formed. */
  predicate Plain(v: Json) {
    match v
    case Undef => false
    case NonFinite => false
    case Num(t) => NumText(t)
    case Arr(xs) => PlainItems(xs)
    case Obj(fs) => PlainFields(fs)
    case _ => true
  }

  predicate PlainItems(xs: Items) { match xs case NoItems => true case Item(v, r) => Plain(v) && PlainItems(r) }

  predicate PlainFields(fs: Fields) {
    match fs case NoFields => true case Field(_, v, r) => Plain(v) && PlainFields(r)
  }

  /** Values of all fields valid, keys aside. */
  predicate ValidVals(fs: Fields) {
    match fs case NoFields => true case Field(_, v, r) => Valid(v) && ValidVals(r)
  }

  lemma {:induction false} InsertValidVals(k: Text, v: Json, fs: Fields)
    requires Valid(v) && ValidVals(fs)
    ensures ValidVals(Insert(k, v, fs))
  {
    if fs.Field? { InsertValidVals(k, v, fs.rest); }
  }

  lemma {:induction false} SortedValidVals(fs: Fields)
    requires ValidFields(fs)
    ensures ValidVals(Sorted(fs))
  {
    if fs.Field? {
      SortedValidVals(fs.rest);
      if !fs.val.Undef? { InsertValidVals(fs.key, fs.val, Sorted(fs.rest)); }
    }
  }

  lemma {:induction false} NormPlain(v: Json)
    requires Valid(v)
    ensures Plain(Norm(v))
    decreases Size(v)
  {
    match v {
      case Arr(xs) => NormItemsPlain(xs);
      case Obj(fs) =>
        SortedValidVals(fs);
        NormFieldsPlain(Sorted(fs));
      case _ =>
    }
  }

  lemma {:induction false} NormItemsPlain(xs: Items)
    requires ValidItems(xs)
    ensures PlainItems(NormItems(xs))
    decreases SizeItems(xs)
  {
    if xs.Item? { NormPlain(xs.head); NormItemsPlain(xs.tail); }
  }

  lemma {:induction false} NormFieldsPlain(fs: Fields)
    requires ValidVals(fs)
    ensures PlainFields(NormFields(fs))
    decreases SizeFields(fs)
  {
    if fs.Field? { NormPlain(fs.val); NormFieldsPlain(fs.rest); }
  }

  // ── The text determines the normal form ───────────────────────────────────

  /** What may follow a value: nothing, a comma or a closing bracket. */
  predicate Stop(x: Text) {
    x == [] || x[0] == COMMA || x[0] == CLOSE_ARRAY || x[0] == CLOSE_OBJECT
  }

  /** The constructor of a plain value can be told from its first unit. */
  function Kind(u: Unit): nat {
    if u == OPEN_ARRAY then 1 else if u == OPEN_OBJECT then 2 else if u == QUOTE then 3
    else if u == TRUE[0] then 4 else if u == FALSE[0] then 5 else if u == NULL[0] then 6 else 7
  }

  function KindOf(v: Json): nat {
    match v
    case Arr(_) => 1
    case Obj(_) => 2
    case Str(_) => 3
    case Bool(b) => if b then 4 else 5
    case Num(_) => 7
    case _ => 6
  }

  lemma RawLead(v: Json)
    requires Plain(v)
    ensures Raw(v) != [] && Kind(Raw(v)[0]) == KindOf(v) && !Stop(Raw(v))
  {
    if v.Arr? { assert Raw(v)[0] == OPEN_ARRAY; }
    if v.Obj? { assert Raw(v)[0] == OPEN_OBJECT; }
    if v.Str? { assert Raw(v)[0] == QUOTE; }
  }

  lemma NumNotShorter(s: Text, t: Text, x: Text, y: Text)
    requires forall i :: 0 <= i < |t| ==> NumUnit(t[i])
    requires Stop(x) && s + x == t + y
    ensures |t| <= |s|
  {
    var z := s + x;
    assert forall i :: 0 <= i < |t| ==> z[i] == t[i];
    assert x != [] ==> z[|s|] == x[0];
  }

  lemma {:induction false} NumPrefix(s: Text, t: Text, x: Text, y: Text)
    requires forall i :: 0 <= i < |s| ==> NumUnit(s[i])
    requires forall i :: 0 <= i < |t| ==> NumUnit(t[i])
    requires Stop(x) && Stop(y) && s + x == t + y
    ensures s == t && x == y
  {
    NumNotShorter(s, t, x, y);
    NumNotShorter(t, s, y, x);
    var z := s + x;
    assert z[..|s|] == s && z[..|s|] == t && z[|s|..] == x && z[|s|..] == y;
  }

  lemma SameWord(word: Text, x: Text, y: Text)
    requires word + x == word + y
    ensures x == y
  {
    assert (word + x)[|word|..] == x && (word + y)[|word|..] == y;
  }

  lemma SameKind(v: Json, w: Json, x: Text, y: Text)
    requires Plain(v) && Plain(w) && Raw(v) + x == Raw(w) + y
    ensures KindOf(v) == KindOf(w)
  {
    RawLead(v);
    RawLead(w);
    assert (Raw(v) + x)[0] == Raw(v)[0] && (Raw(w) + y)[0] == Raw(w)[0];
  }

  lemma Bracketed(open: Unit, s: Text, close: Unit, x: Text, t: Text, y: Text)
    requires [open] + s + [close] + x == [open] + t + [close] + y
    ensures s + ([close] + x) == t + ([close] + y)
  {
    assert ([open] + s + [close] + x)[1..] == s + ([close] + x);
    assert ([open] + t + [close] + y)[1..] == t + ([close] + y);
  }

  lemma {:induction false} RawPrefix(v: Json, w: Json, x: Text, y: Text)
    requires Plain(v) && Plain(w) && Stop(x) && Stop(y)
    requires Raw(v) + x == Raw(w) + y
    ensures v == w && x == y
    decreases v
  {
    SameKind(v, w, x, y);
    match v {
      case Arr(xs) =>
        Bracketed(OPEN_ARRAY, RawItems(xs), CLOSE_ARRAY, x, RawItems(w.items), y);
        ItemsPrefix(xs, w.items, x, y);
      case Obj(fs) =>
        Bracketed(OPEN_OBJECT, RawFields(fs), CLOSE_OBJECT, x, RawFields(w.fields), y);
        FieldsPrefix(fs, w.fields, x, y);
      case Str(s) => QuotePrefix(s, w.s, x, y);
      case Num(t) => NumPrefix(t, w.text, x, y);
      case Null => SameWord(NULL, x, y);
      case Bool(b) => SameWord(Raw(v), x, y);
      case Undef => assert false;
      case NonFinite => assert false;
    }
  }

  /** One item and what follows it inside the brackets. */
  lemma ItemSplit(v: Json, r: Items, x: Text)
    ensures var after := if r.NoItems? then [CLOSE_ARRAY] + x else [COMMA] + (RawItems(r) + ([CLOSE_ARRAY] + x));
            RawItems(Item(v, r)) + ([CLOSE_ARRAY] + x) == Raw(v) + after && Stop(after)
  {}

  lemma ItemsNotEmpty(v: Json, r: Items, x: Text)
    requires Plain(v)
    ensures (RawItems(Item(v, r)) + ([CLOSE_ARRAY] + x))[0] != CLOSE_ARRAY
  {
    ItemSplit(v, r, x);
    RawLead(v);
  }

  lemma {:induction false} ItemsPrefix(xs: Items, ys: Items, x: Text, y: Text)
    requires PlainItems(xs) && PlainItems(ys)
    requires RawItems(xs) + ([CLOSE_ARRAY] + x) == RawItems(ys) + ([CLOSE_ARRAY] + y)
    ensures xs == ys && x == y
    decreases xs
  {
    var a, b := [CLOSE_ARRAY] + x, [CLOSE_ARRAY] + y;
    assert RawItems(NoItems) + a == a && RawItems(NoItems) + b == b;
    if xs.NoItems? && ys.NoItems? {
      assert a[1..] == x && b[1..] == y;
    } else if xs.NoItems? {
      ItemsNotEmpty(ys.head, ys.tail, y);
      assert false;
    } else if ys.NoItems? {
      ItemsNotEmpty(xs.head, xs.tail, x);
      assert false;
    } else {
      var v, r, w, q := xs.head, xs.tail, ys.head, ys.tail;
      var p := if r.NoItems? then a else [COMMA] + (RawItems(r) + a);
      var s := if q.NoItems? then b else [COMMA] + (RawItems(q) + b);
      ItemSplit(v, r, x);
      ItemSplit(w, q, y);
      RawPrefix(v, w, p, s);
      assert p[0] == s[0] && p[1..] == s[1..];
      if r.Item? {
        assert p[1..] == RawItems(r) + a && s[1..] == RawItems(q) + b;
        ItemsPrefix(r, q, x, y);
      } else {
        assert a[1..] == x && b[1..] == y;
      }
    }
  }

  lemma FieldSplit(k: Text, v: Json, r: Fields, x: Text)
    ensures var after := if r.NoFields? then [CLOSE_OBJECT] + x else [COMMA] + (RawFields(r) + ([CLOSE_OBJECT] + x));
            RawFields(Field(k, v, r)) + ([CLOSE_OBJECT] + x) == Quote(k) + ([COLON] + (Raw(v) + after)) && Stop(after)
  {}

  lemma FieldsNotEmpty(k: Text, v: Json, r: Fields, x: Text)
    ensures (RawFields(Field(k, v, r)) + ([CLOSE_OBJECT] + x))[0] == QUOTE
  {
    FieldSplit(k, v, r, x);
    assert Quote(k)[0] == QUOTE;
  }

  lemma {:induction false} FieldsPrefix(fs: Fields, gs: Fields, x: Text, y: Text)
    requires PlainFields(fs) && PlainFields(gs)
    requires RawFields(fs) + ([CLOSE_OBJECT] + x) == RawFields(gs) + ([CLOSE_OBJECT] + y)
    ensures fs == gs && x == y
    decreases fs
  {
    var a, b := [CLOSE_OBJECT] + x, [CLOSE_OBJECT] + y;
    assert RawFields(NoFields) + a == a && RawFields(NoFields) + b == b;
    if fs.NoFields? && gs.NoFields? {
      assert a[1..] == x && b[1..] == y;
    } else if fs.NoFields? {
      FieldsNotEmpty(gs.key, gs.val, gs.rest, y);
      assert false;
    } else if gs.NoFields? {
      FieldsNotEmpty(fs.key, fs.val, fs.rest, x);
      assert false;
    } else {
      var p := if fs.rest.NoFields? then a else [COMMA] + (RawFields(fs.rest) + a);
      var s := if gs.rest.NoFields? then b else [COMMA] + (RawFields(gs.rest) + b);
      FieldSplit(fs.key, fs.val, fs.rest, x);
      FieldSplit(gs.key, gs.val, gs.rest, y);
      QuotePrefix(fs.key, gs.key, [COLON] + (Raw(fs.val) + p), [COLON] + (Raw(gs.val) + s));
      assert ([COLON] + (Raw(fs.val) + p))[1..] == Raw(fs.val) + p;
      assert ([COLON] + (Raw(gs.val) + s))[1..] == Raw(gs.val) + s;
      RawPrefix(fs.val, gs.val, p, s);
      assert p[0] == s[0] && p[1..] == s[1..];
      if fs.rest.Field? {
        assert p[1..] == RawFields(fs.rest) + a && s[1..] == RawFields(gs.rest) + b;
        FieldsPrefix(fs.rest, gs.rest, x, y);
      } else {
        assert a[1..] == x && b[1..] == y;
      }
    }
  }

  // ── Normal forms agree exactly on the same bodies ─────────────────────────

  lemma {:induction false} LessTotal(a: Text, b: Text)
    ensures a == b || Less(a, b) || Less(b, a)
    decreases |a|
  {
    if a != [] && b != [] && a[0] == b[0] {
      LessTotal(a[1..], b[1..]);
      assert a == [a[0]] + a[1..] && b == [b[0]] + b[1..];
    }
  }

  lemma {:induction false} LessTransitive(a: Text, b: Text, c: Text)
    requires Less(a, b) && Less(b, c)
    ensures Less(a, c)
    decreases |a|
  {
    if a != [] && a[0] == b[0] && b[0] == c[0] { LessTransitive(a[1..], b[1..], c[1..]); }
  }

  lemma {:induction false} LessIrreflexive(a: Text)
    ensures !Less(a, a)
    decreases |a|
  {
    if a != [] { LessIrreflexive(a[1..]); }
  }

  /** Strictly ascending keys, every property defined. */
  predicate Ascending(fs: Fields) {
    fs.Field? ==>
      && !fs.val.Undef?
      && (fs.rest.Field? ==> Less(fs.key, fs.rest.key))
      && Ascending(fs.rest)
  }

  /** In ascending fields every later key is greater than the first. */
  lemma {:induction false} FirstIsLeast(fs: Fields, k: Text)
    requires Ascending(fs) && fs.Field? && Has(fs.rest, k)
    ensures Less(fs.key, k)
  {
    if fs.rest.key != k {
      FirstIsLeast(fs.rest, k);
      LessTransitive(fs.key, fs.rest.key, k);
    }
  }

  lemma {:induction false} HasKey(fs: Fields, k: Text)
    requires Has(fs, k)
    ensures k in Keys(fs)
  {
    if fs.key != k { HasKey(fs.rest, k); }
  }

  lemma {:induction false} InsertAscending(k: Text, v: Json, fs: Fields)
    requires Ascending(fs) && !v.Undef? && !Has(fs, k)
    ensures Ascending(Insert(k, v, fs))
    ensures Insert(k, v, fs).Field?
    ensures Insert(k, v, fs).key == k || (fs.Field? && Insert(k, v, fs).key == fs.key)
    ensures forall j :: Has(Insert(k, v, fs), j) <==> j == k || Has(fs, j)
    ensures forall j :: Has(Insert(k, v, fs), j) ==>
              Get(Insert(k, v, fs), j) == if j == k then v else Get(fs, j)
  {
    if fs.Field? {
      LessTotal(fs.key, k);
      LessIrreflexive(k);
      if Less(fs.key, k) { InsertAscending(k, v, fs.rest); }
    }
  }

  /** Sorting keeps exactly the defined properties and puts them in order. */
  lemma {:induction false} SortedMeans(fs: Fields)
    requires ValidFields(fs)
    ensures Ascending(Sorted(fs))
    ensures forall k :: Has(Sorted(fs), k) <==> Has(fs, k)
    ensures forall k :: Has(fs, k) ==> Get(Sorted(fs), k) == Get(fs, k)
  {
    if fs.Field? {
      SortedMeans(fs.rest);
      if Has(fs.rest, fs.key) { HasKey(fs.rest, fs.key); }
      if !fs.val.Undef? { InsertAscending(fs.key, fs.val, Sorted(fs.rest)); }
    }
  }

  /** Every property of one object is, normalised, a property of the other. */
  ghost predicate Within(fs: Fields, gs: Fields) {
    forall k :: Has(fs, k) ==> Has(gs, k) && Norm(Get(fs, k)) == Norm(Get(gs, k))
  }

  lemma HeadsApart(fs: Fields)
    requires Ascending(fs) && fs.Field?
    ensures !Has(fs.rest, fs.key)
  {
    if Has(fs.rest, fs.key) {
      FirstIsLeast(fs, fs.key);
      LessIrreflexive(fs.key);
    }
  }

  lemma TailsWithin(fs: Fields, gs: Fields)
    requires fs.Field? && gs.Field? && fs.key == gs.key && !fs.val.Undef? && !gs.val.Undef?
    requires !Has(fs.rest, fs.key) && !Has(gs.rest, gs.key)
    ensures Within(fs, gs) <==> Norm(fs.val) == Norm(gs.val) && Within(fs.rest, gs.rest)
  {
    if Within(fs, gs) {
      assert Has(fs, fs.key);
      forall k | Has(fs.rest, k) ensures Has(gs.rest, k) && Norm(Get(fs.rest, k)) == Norm(Get(gs.rest, k)) {
        assert Has(fs, k) && Get(fs, k) == Get(fs.rest, k);
      }
    }
    if Norm(fs.val) == Norm(gs.val) && Within(fs.rest, gs.rest) {
      forall k | Has(fs, k) ensures Has(gs, k) && Norm(Get(fs, k)) == Norm(Get(gs, k)) {
        if k != fs.key { assert Has(fs.rest, k) && Has(gs.rest, k); }
      }
    }
  }

  lemma {:induction false} AscendingEqual(fs: Fields, gs: Fields)
    requires Ascending(fs) && Ascending(gs)
    ensures NormFields(fs) == NormFields(gs) <==> Within(fs, gs) && Within(gs, fs)
    decreases fs
  {
    if fs.NoFields? {
      if gs.Field? { assert Has(gs, gs.key); }
    } else if gs.NoFields? {
      assert Has(fs, fs.key);
    } else if fs.key == gs.key {
      AscendingEqual(fs.rest, gs.rest);
      HeadsApart(fs);
      HeadsApart(gs);
      assert Has(fs, fs.key) && Has(gs, gs.key);
      assert forall k :: Has(fs, k) <==> k == fs.key || Has(fs.rest, k);
      assert forall k :: Has(gs, k) <==> k == gs.key || Has(gs.rest, k);
      TailsWithin(fs, gs);
      TailsWithin(gs, fs);
    } else {
      if Within(fs, gs) && Within(gs, fs) {
        assert Has(fs, fs.key) && Has(gs, gs.key);
        FirstIsLeast(fs, gs.key);
        FirstIsLeast(gs, fs.key);
        LessTransitive(fs.key, gs.key, fs.key);
        LessIrreflexive(fs.key);
        assert false;
      }
    }
  }

  lemma {:induction false} GetValid(fs: Fields, k: Text)
    requires ValidFields(fs) && Has(fs, k)
    ensures Valid(Get(fs, k))
  {
    if fs.key != k { GetValid(fs.rest, k); }
  }

  lemma {:induction false} NormEqualExactly(v: Json, w: Json)
    requires Valid(v) && Valid(w)
    ensures Norm(v) == Norm(w) <==> Same(v, w)
    decreases Size(v)
  {
    if v.Arr? && w.Arr? {
      NormItemsEqualExactly(v.items, w.items);
    } else if v.Obj? && w.Obj? {
      var fs, gs := v.fields, w.fields;
      SortedMeans(fs);
      SortedMeans(gs);
      AscendingEqual(Sorted(fs), Sorted(gs));
      forall k | Has(fs, k) && Has(gs, k)
        ensures Norm(Get(fs, k)) == Norm(Get(gs, k)) <==> Same(Get(fs, k), Get(gs, k))
      {
        GetValid(fs, k);
        GetValid(gs, k);
        NormEqualExactly(Get(fs, k), Get(gs, k));
      }
    }
  }

  lemma {:induction false} NormItemsEqualExactly(xs: Items, ys: Items)
    requires ValidItems(xs) && ValidItems(ys)
    ensures NormItems(xs) == NormItems(ys) <==> SameItems(xs, ys)
    decreases SizeItems(xs)
  {
    if xs.Item? && ys.Item? {
      NormEqualExactly(xs.head, ys.head);
      NormItemsEqualExactly(xs.tail, ys.tail);
    }
  }

  /**
   * `stableStringify` is canonical and injective at every depth: two values have the same
   * text exactly when they are the same up to key order, undefined properties and blanks.
   */
  lemma TextExactly(v: Json, w: Json)
    requires Valid(v) && Valid(w)
    ensures StableStringify(v) == StableStringify(w) <==> Same(v, w)
  {
    PrintsNormalForm(v);
    PrintsNormalForm(w);
    NormEqualExactly(v, w);
    NormPlain(v);
    NormPlain(w);
    if Raw(Norm(v)) == Raw(Norm(w)) {
      assert Raw(Norm(v)) + [] == Raw(Norm(w)) + [];
      RawPrefix(Norm(v), Norm(w), [], []);
    }
  }
}
