/** Decimal text of contract ids, and the forms in which an id arrives from the chain. */
module DecimalText {
  import opened EscrowTables

  predicate Digit(c: char) { '0' <= c <= '9' }

  predicate AllDigits(s: string) { forall i :: 0 <= i < |s| ==> Digit(s[i]) }

  function DigitChar(d: nat): (c: char)
    requires d < 10
    ensures Digit(c) && c as int - '0' as int == d
  {
    ('0' as int + d) as char
  }

  /** `BigInt.prototype.toString` on a non-negative value. */
  function Print(n: nat): (s: string)
    ensures s != "" && AllDigits(s)
    ensures s[0] == '0' ==> s == "0"
  {
    if n < 10 then [DigitChar(n)] else Print(n / 10) + [DigitChar(n % 10)]
  }

  /** `BigInt(text)` on a run of decimal digits. */
  function Parse(s: string): nat
    requires AllDigits(s)
  {
    if s == "" then 0 else Parse(s[..|s| - 1]) * 10 + (s[|s| - 1] as int - '0' as int)
  }

  lemma {:induction false} ParsePrint(n: nat)
    ensures Parse(Print(n)) == n
  {
    var s := Print(n);
    if n < 10 {
      assert s[..|s| - 1] == "";
    } else {
      ParsePrint(n / 10);
      assert s[..|s| - 1] == Print(n / 10);
    }
  }

  lemma {:induction false} ParsePositive(s: string)
    requires s != "" && AllDigits(s) && s[0] != '0'
    ensures Parse(s) > 0
  {
    if |s| > 1 { ParsePositive(s[..|s| - 1]); } else { assert s[..0] == ""; }
  }

  lemma {:induction false} PrintParsePlain(s: string)
    requires s != "" && AllDigits(s) && (s[0] == '0' ==> s == "0")
    ensures Print(Parse(s)) == s
  {
    var t, d := s[..|s| - 1], s[|s| - 1] as int - '0' as int;
    assert s == t + [DigitChar(d)];
    if t != "" {
      PrintParsePlain(t);
      ParsePositive(t);
      var n := Parse(t);
      assert (n * 10 + d) / 10 == n && (n * 10 + d) % 10 == d;
    }
  }

  /** Printing is a left inverse of parsing exactly on text without redundant zeros. */
  lemma {:induction false} PrintParse(s: string)
    requires s != "" && AllDigits(s)
    ensures Print(Parse(s)) == s <==> (s[0] == '0' ==> s == "0")
  {
    if s[0] == '0' ==> s == "0" { PrintParsePlain(s); }
  }

  // ── Values decoded from an event payload ──────────────────────────────────

  /** A native value as the XDR decoder hands it over; `Other` covers everything else. */
  datatype Value =
    | Big(n: int)
    | Number(num: real)
    | Text(text: string)
    | List(items: seq<Value>)
    | Other

  const MAX_SAFE_INTEGER: int := 0x1F_FFFF_FFFF_FFFF

  function ToContractEscrowId(v: Value): Option<nat> {
    match v
    case Big(n) => if n >= 0 then Some(n) else None
    case Number(x) =>
      if x == x.Floor as real && 0 <= x.Floor <= MAX_SAFE_INTEGER then Some(x.Floor) else None
    case Text(s) => if s != "" && AllDigits(s) then Some(Parse(s)) else None
    case _ => None
  }

  /** Every form a decoder may give one id names the same escrow. */
  lemma ContractIdForms(n: nat)
    ensures ToContractEscrowId(Big(n)) == Some(n)
    ensures ToContractEscrowId(Text(Print(n))) == Some(n)
    ensures n <= 9007199254740991 <==> ToContractEscrowId(Number(n as real)) == Some(n)
  {
    ParsePrint(n);
    assert (n as real).Floor == n;
  }

  /** A value is accepted as an id exactly when it denotes that number, redundant zeros of a text included. */
  lemma ContractIdInjective(v: Value, n: nat)
    ensures ToContractEscrowId(v) == Some(n) <==>
              match v
              case Big(m) => m == n
              case Number(x) => x == n as real && n <= 9007199254740991
              case Text(s) => s != "" && AllDigits(s) && Parse(s) == n
              case _ => false
    ensures v.Text? && ToContractEscrowId(v) == Some(n) ==> v.text == Print(n) || v.text[0] == '0'
  {
    if v.Text? && v.text != "" && AllDigits(v.text) { PrintParse(v.text); }
    if v.Number? && v.num == n as real { assert v.num.Floor == n; }
  }
}
