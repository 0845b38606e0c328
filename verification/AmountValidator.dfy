/**
 * Counting the decimal places of an amount in plain or exponent notation, and what the accepted
 * amounts are: exactly the positive ones a Decimal(18, 8) column holds.
 *
 * Models src/common/validators/max-decimal-places.validator.ts and the amount rules of
 * src/escrow/dto/create-escrow.dto.ts on the text that `Number.prototype.toString` gives.
 */
module AmountValidator {
  import opened EscrowTables
  import opened DecimalText

  const MAX_PLACES: nat := 8
  const MAX_AMOUNT: nat := 9999999999

  datatype Exponent = Exponent(negative: bool, digits: string)

  /** The three captures of the pattern; an absent fraction is empty. */
  datatype Numeral = Numeral(whole: string, frac: string, exponent: Option<Exponent>)

  predicate Proper(x: Numeral) {
    && x.whole != "" && AllDigits(x.whole) && AllDigits(x.frac)
    && (x.exponent.Some? ==> x.exponent.value.digits != "" && AllDigits(x.exponent.value.digits))
  }

  function RenderFrac(frac: string): string { if frac == "" then "" else "." + frac }

  function RenderExponent(e: Option<Exponent>): string {
    if e.None? then "" else "e" + (if e.value.negative then "-" else "+") + e.value.digits
  }

  function Render(x: Numeral): string { x.whole + RenderFrac(x.frac) + RenderExponent(x.exponent) }

  // ── The pattern ───────────────────────────────────────────────────────────

  /** Length of the longest run of digits at the start. */
  function DigitRun(s: string): (n: nat)
    ensures n <= |s| && AllDigits(s[..n]) && (n < |s| ==> !Digit(s[n]))
  {
    if s == "" || !Digit(s[0]) then 0 else 1 + DigitRun(s[1..])
  }

  function MatchExponent(s: string): Option<Option<Exponent>> {
    if s == "" then Some(None)
    else if |s| > 2 && s[0] == 'e' && (s[1] == '+' || s[1] == '-') && AllDigits(s[2..])
    then Some(Some(Exponent(s[1] == '-', s[2..])))
    else None
  }

  function MatchTail(whole: string, s: string): Option<Numeral> {
    var n := if s != "" && s[0] == '.' then DigitRun(s[1..]) else 0;
    var frac := if n > 0 then s[1..n + 1] else "";
    var e := MatchExponent(if n > 0 then s[n + 1..] else s);
    if e.Some? then Some(Numeral(whole, frac, e.value)) else None
  }

  function Match(s: string): Option<Numeral> {
    var n := DigitRun(s);
    if n == 0 then None else MatchTail(s[..n], s[n..])
  }

  lemma {:induction false} DigitRunOf(digits: string, rest: string)
    requires AllDigits(digits) && (rest != "" ==> !Digit(rest[0]))
    ensures DigitRun(digits + rest) == |digits|
    decreases |digits|
  {
    if digits == "" {
      assert digits + rest == rest;
    } else {
      assert (digits + rest)[1..] == digits[1..] + rest;
      DigitRunOf(digits[1..], rest);
    }
  }

  lemma MatchRenderExponent(e: Option<Exponent>)
    requires e.Some? ==> e.value.digits != "" && AllDigits(e.value.digits)
    ensures MatchExponent(RenderExponent(e)) == Some(e)
  {
    if e.Some? { assert RenderExponent(e)[2..] == e.value.digits; }
  }

  lemma ExponentStart(e: Option<Exponent>)
    ensures RenderExponent(e) == "" || RenderExponent(e)[0] == 'e'
  {}

  lemma MatchTailRender(x: Numeral)
    requires Proper(x)
    ensures MatchTail(x.whole, RenderFrac(x.frac) + RenderExponent(x.exponent)) == Some(x)
  {
    hide MatchExponent, RenderExponent;
    var e := RenderExponent(x.exponent);
    var tail := RenderFrac(x.frac) + e;
    MatchRenderExponent(x.exponent);
    ExponentStart(x.exponent);
    if x.frac == "" {
      assert tail == e;
    } else {
      assert tail[1..] == x.frac + e;
      DigitRunOf(x.frac, e);
      assert tail[1..|x.frac| + 1] == x.frac && tail[|x.frac| + 1..] == e;
    }
  }

  /** The pattern recovers what was rendered. */
  lemma MatchRender(x: Numeral)
    requires Proper(x)
    ensures Match(Render(x)) == Some(x)
  {
    hide MatchTail, RenderExponent;
    var tail := RenderFrac(x.frac) + RenderExponent(x.exponent);
    assert Render(x) == x.whole + tail;
    ExponentStart(x.exponent);
    DigitRunOf(x.whole, tail);
    MatchTailRender(x);
  }

  lemma RenderMatchExponent(s: string)
    requires MatchExponent(s).Some?
    ensures var e := MatchExponent(s).value;
            RenderExponent(e) == s && (e.Some? ==> e.value.digits != "" && AllDigits(e.value.digits))
  {
    if s != "" { assert s == [s[0]] + [s[1]] + s[2..]; }
  }

  lemma RenderMatchTail(whole: string, s: string)
    requires MatchTail(whole, s).Some? && whole != "" && AllDigits(whole)
    ensures var x := MatchTail(whole, s).value;
            Proper(x) && x.whole == whole && RenderFrac(x.frac) + RenderExponent(x.exponent) == s
  {
    hide MatchExponent, RenderExponent;
    var k := if s != "" && s[0] == '.' then DigitRun(s[1..]) else 0;
    var tail := if k > 0 then s[k + 1..] else s;
    RenderMatchExponent(tail);
    if k > 0 {
      assert s[1..][..k] == s[1..k + 1];
      assert s == "." + s[1..k + 1] + tail;
    }
  }

  /** The pattern matches exactly the texts of numerals, each in one way. */
  lemma MatchExactly(s: string, x: Numeral)
    ensures Match(s) == Some(x) <==> Proper(x) && s == Render(x)
  {
    hide MatchTail, RenderExponent, RenderFrac;
    if Match(s) == Some(x) {
      var n := DigitRun(s);
      RenderMatchTail(s[..n], s[n..]);
      assert s == s[..n] + (RenderFrac(x.frac) + RenderExponent(x.exponent));
    } else if Proper(x) && s == Render(x) {
      MatchRender(x);
    }
  }

  // ── Decimal places ────────────────────────────────────────────────────────

  function ExponentOf(x: Numeral): int
    requires Proper(x)
  {
    if x.exponent.None? then 0
    else (if x.exponent.value.negative then -1 else 1) * Parse(x.exponent.value.digits)
  }

  function Places(x: Numeral): nat
    requires Proper(x)
  {
    var d := |x.frac| - ExponentOf(x);
    if d < 0 then 0 else d
  }

  /** `countDecimalPlaces`; None is infinity. */
  function CountDecimalPlaces(s: string): Option<nat> {
    var m := Match(s);
    if m.None? then None
    else
      MatchExactly(s, m.value);
      Some(Places(m.value))
  }

  // ── The value ─────────────────────────────────────────────────────────────

  function Pow10(k: nat): (p: nat)
    ensures p > 0
  {
    if k == 0 then 1 else 10 * Pow10(k - 1)
  }

  lemma {:induction false} Pow10Add(a: nat, b: nat)
    ensures Pow10(a + b) == Pow10(a) * Pow10(b)
  {
    if a > 0 { Pow10Add(a - 1, b); }
  }

  function Mantissa(x: Numeral): nat
    requires Proper(x)
  {
    Parse(x.whole + x.frac)
  }

  /** The numeral is the rational Num / Den. */
  function Num(x: Numeral): nat
    requires Proper(x)
  {
    var d := ExponentOf(x) - |x.frac|;
    if d > 0 then Mantissa(x) * Pow10(d) else Mantissa(x)
  }

  function Den(x: Numeral): nat
    requires Proper(x)
  {
    var d := |x.frac| - ExponentOf(x);
    if d > 0 then Pow10(d) else 1
  }

  /** The value times 10^k is the integer m, on the digits, the point and the exponent as they are written. */
  predicate ScaledTo(x: Numeral, k: nat, m: nat)
    requires Proper(x)
  {
    var n := if x.exponent.Some? then Parse(x.exponent.value.digits) else 0;
    if x.exponent.Some? && x.exponent.value.negative
    then Parse(x.whole + x.frac) * Pow10(k) == m * Pow10(|x.frac| + n)
    else Parse(x.whole + x.frac) * Pow10(n + k) == m * Pow10(|x.frac|)
  }

  ghost predicate IntegerAt(x: Numeral, k: nat)
    requires Proper(x)
  {
    exists m: nat :: ScaledTo(x, k, m)
  }

  lemma DenIsPlaces(x: Numeral)
    requires Proper(x)
    ensures Den(x) == Pow10(Places(x)) && (Places(x) > 0 ==> Num(x) == Mantissa(x))
  {}

  /** The places counted, by the sign of the exponent; without one it is zero. Other texts count as infinite. */
  lemma PlacesExactly(x: Numeral, s: string)
    requires Proper(x)
    ensures s == Render(x) ==> CountDecimalPlaces(s) == Some(Places(x))
    ensures CountDecimalPlaces(s).Some? <==> exists y: Numeral :: Proper(y) && s == Render(y)
    ensures x.exponent.None? ==> Places(x) == |x.frac|
    ensures x.exponent.Some? && x.exponent.value.negative ==>
              Places(x) == |x.frac| + Parse(x.exponent.value.digits)
    ensures x.exponent.Some? && !x.exponent.value.negative ==>
              var n := Parse(x.exponent.value.digits); Places(x) == if |x.frac| < n then 0 else |x.frac| - n
  {
    MatchExactly(s, x);
    if y: Numeral :| Proper(y) && s == Render(y) { MatchExactly(s, y); }
    if Match(s).Some? { MatchExactly(s, Match(s).value); }
  }

  lemma Commute(a: nat, b: nat, c: nat)
    ensures (a * b) * c == a * (c * b)
  {}

  lemma Cancel(a: nat, b: nat, c: nat)
    requires c > 0
    ensures a * c == b * c <==> a == b
  {}

  lemma Associate(a: nat, b: nat, c: nat)
    ensures a * (b * c) == (a * b) * c
  {}

  /** a * 10^i * 10^c against b * 10^j * 10^c. */
  lemma CancelPower(a: nat, i: nat, b: nat, j: nat, c: nat)
    ensures a * Pow10(i + c) == b * Pow10(j + c) <==> a * Pow10(i) == b * Pow10(j)
  {
    Pow10Add(i, c);
    Pow10Add(j, c);
    Associate(a, Pow10(i), Pow10(c));
    Associate(b, Pow10(j), Pow10(c));
    Cancel(a * Pow10(i), b * Pow10(j), Pow10(c));
  }

  /** The rational Num / Den is the value written. */
  lemma ValueExactly(x: Numeral, k: nat, m: nat)
    requires Proper(x)
    ensures ScaledTo(x, k, m) <==> Num(x) * Pow10(k) == m * Den(x)
  {
    var f, n := |x.frac|, if x.exponent.Some? then Parse(x.exponent.value.digits) else 0;
    if x.exponent.Some? && x.exponent.value.negative {
      DenIsPlaces(x);
    } else if n > f {
      CancelPower(Mantissa(x), n - f + k, m, 0, f);
      Pow10Add(n - f, k);
      Associate(Mantissa(x), Pow10(n - f), Pow10(k));
    } else {
      CancelPower(Mantissa(x), k, m, f - n, n);
    }
  }

  /** Enough places: the value is an integer multiple of 10^-k for every k from the count on. */
  lemma PlacesSuffice(x: Numeral, k: nat)
    requires Proper(x) && Places(x) <= k
    ensures ScaledTo(x, k, Num(x) * Pow10(k - Places(x))) && IntegerAt(x, k)
  {
    DenIsPlaces(x);
    Pow10Add(Places(x), k - Places(x));
    var m := Num(x) * Pow10(k - Places(x));
    assert m * Pow10(Places(x)) == Num(x) * (Pow10(Places(x)) * Pow10(k - Places(x))) by {
      Commute(Num(x), Pow10(k - Places(x)), Pow10(Places(x)));
    }
    ValueExactly(x, k, m);
    assert ScaledTo(x, k, m);
  }

  lemma TenDivides(m: nat, p: nat)
    ensures (m * (10 * p)) % 10 == 0
  {
    assert m * (10 * p) == 10 * (m * p);
  }

  /** Fewer places than counted would do only if the last digit is zero. */
  lemma FewerPlaces(x: Numeral, k: nat, m: nat)
    requires Proper(x) && k < Places(x) && ScaledTo(x, k, m)
    ensures Mantissa(x) % 10 == 0
  {
    DenIsPlaces(x);
    ValueExactly(x, k, m);
    var p := Places(x);
    Pow10Add(p - k, k);
    Associate(m, Pow10(p - k), Pow10(k));
    Cancel(Mantissa(x), m * Pow10(p - k), Pow10(k));
    TenDivides(m, Pow10(p - k - 1));
  }

  /**
   * The counted places are the least number that makes the value an integer exactly when none are
   * counted or the last digit written is not zero.
   */
  lemma PlacesMinimalExactly(x: Numeral)
    requires Proper(x)
    ensures (forall k :: 0 <= k < Places(x) ==> !IntegerAt(x, k)) <==> Places(x) == 0 || Mantissa(x) % 10 != 0
  {
    var p := Places(x);
    if p > 0 && Mantissa(x) % 10 == 0 {
      DenIsPlaces(x);
      var m := Mantissa(x) / 10;
      assert Mantissa(x) == m * 10;
      Associate(m, 10, Pow10(p - 1));
      ValueExactly(x, p - 1, m);
      assert ScaledTo(x, p - 1, m);
      assert IntegerAt(x, p - 1);
    } else {
      forall k | 0 <= k < p ensures !IntegerAt(x, k) {
        if IntegerAt(x, k) {
          var m: nat :| ScaledTo(x, k, m);
          FewerPlaces(x, k, m);
          assert false;
        }
      }
    }
  }

  // ── Accepted amounts ──────────────────────────────────────────────────────

  /** Positive, at most eight places, at most the maximum. */
  predicate Accepts(s: string) {
    var m := Match(s);
    && m.Some?
    && (MatchExactly(s, m.value); CountDecimalPlaces(s).value <= MAX_PLACES)
    && 0 < Num(m.value) <= MAX_AMOUNT * Den(m.value)
  }

  /** What the column stores, in units of 10^-8. */
  function Stored(x: Numeral): nat
    requires Proper(x) && Places(x) <= MAX_PLACES
  {
    Num(x) * Pow10(MAX_PLACES - Places(x))
  }

  lemma Pow10Eight()
    ensures Pow10(8) == 100000000 && Pow10(18) == 1000000000000000000
  {
    Pow10Add(8, 8);
    Pow10Add(16, 2);
    assert Pow10(4) == 10000;
    Pow10Add(4, 4);
    assert Pow10(2) == 100;
  }

  /** The maximum, in units of 10^-8. */
  const MAX_STORED: nat := 999999999900000000

  lemma FitsBelow(num: nat, scale: nat, den: nat)
    requires scale > 0 && den * scale == 100000000
    ensures 0 < num <= MAX_AMOUNT * den <==> 0 < num * scale <= MAX_STORED
  {
    Associate(MAX_AMOUNT, den, scale);
    if num <= MAX_AMOUNT * den {
      assert num * scale <= MAX_AMOUNT * den * scale;
    } else {
      assert num * scale > MAX_AMOUNT * den * scale;
    }
  }

  /** With at most eight places, the value times 10^8 is one integer. */
  lemma StoredExactly(x: Numeral, m: nat)
    requires Proper(x) && Places(x) <= MAX_PLACES
    ensures ScaledTo(x, 8, m) <==> m == Stored(x)
    ensures 0 < Num(x) <= MAX_AMOUNT * Den(x) <==> 0 < Stored(x) <= MAX_STORED
  {
    PlacesSuffice(x, 8);
    ValueExactly(x, 8, m);
    ValueExactly(x, 8, Stored(x));
    Cancel(m, Stored(x), Den(x));
    DenIsPlaces(x);
    Pow10Eight();
    Pow10Add(Places(x), 8 - Places(x));
    FitsBelow(Num(x), Pow10(8 - Places(x)), Den(x));
  }

  /** Every accepted amount times 10^8 is a positive integer below 10^18, and no other integer. */
  lemma AcceptedFits(s: string, m: nat)
    requires Accepts(s)
    ensures var x := Match(s).value;
            && Proper(x) && s == Render(x)
            && IntegerAt(x, 8)
            && (ScaledTo(x, 8, m) ==> 0 < m < 1000000000000000000)
  {
    var x := Match(s).value;
    MatchExactly(s, x);
    PlacesSuffice(x, 8);
    StoredExactly(x, m);
  }

  /**
   * A text is accepted exactly when it is a numeral written with at most eight places whose value times
   * 10^8 is a positive integer up to the maximum.
   */
  lemma AcceptsNumeral(x: Numeral)
    requires Proper(x)
    ensures Accepts(Render(x))
            <==> Places(x) <= 8 && exists m: nat :: ScaledTo(x, 8, m) && 0 < m <= 999999999900000000
  {
    MatchRender(x);
    if Places(x) <= 8 {
      StoredExactly(x, Stored(x));
      if m: nat :| ScaledTo(x, 8, m) && 0 < m <= 999999999900000000 { StoredExactly(x, m); }
    }
  }

  lemma AcceptsNumeralsOnly(s: string)
    requires Accepts(s)
    ensures exists x: Numeral :: Proper(x) && s == Render(x)
  {
    MatchExactly(s, Match(s).value);
  }

  /**
   * On the texts JavaScript prints, which never end in a superfluous zero, the accepted amounts are
   * exactly the positive ones up to the maximum that are integers in units of 10^-8.
   */
  lemma AcceptsExactly(x: Numeral)
    requires Proper(x) && (Places(x) == 0 || Parse(x.whole + x.frac) % 10 != 0)
    ensures Accepts(Render(x)) <==> exists m: nat :: ScaledTo(x, 8, m) && 0 < m <= 999999999900000000
  {
    AcceptsNumeral(x);
    if Places(x) > 8 {
      PlacesMinimalExactly(x);
      assert !IntegerAt(x, 8);
    }
  }
}
