/**
 * Rust's integer parsing (`from_str_radix`, which `str::parse` uses with radix
 * 10) and integer formatting (`{}` and `{:x}`) for the integer types the
 * program uses.
 */
module Ints {
  import opened Wrappers

  type I32 = x: int | -0x8000_0000 <= x < 0x8000_0000
  type I64 = x: int | -0x8000_0000_0000_0000 <= x < 0x8000_0000_0000_0000
  /** `usize` on a 64-bit target. */
  type Usize = x: int | 0 <= x < 0x1_0000_0000_0000_0000

  /** The integer types the program parses text into. */
  datatype IntType = I32Type | I64Type | UsizeType {
    function Min(): int {
      match this
      case I32Type => -0x8000_0000
      case I64Type => -0x8000_0000_0000_0000
      case UsizeType => 0
    }
    function Max(): int {
      match this
      case I32Type => 0x7FFF_FFFF
      case I64Type => 0x7FFF_FFFF_FFFF_FFFF
      case UsizeType => 0xFFFF_FFFF_FFFF_FFFF
    }
    predicate Signed() {
      this != UsizeType
    }
  }

  /** `char::to_digit(radix)`: the value of a digit, upper or lower case. */
  function DigitValue(c: char, radix: nat): (r: Option<nat>)
    requires 2 <= radix <= 36
    ensures r.Some? ==> r.value < radix
    ensures r.Some? <==>
      (('0' <= c <= '9' && (c as int) - ('0' as int) < radix)
       || ('a' <= c <= 'z' && (c as int) - ('a' as int) + 10 < radix)
       || ('A' <= c <= 'Z' && (c as int) - ('A' as int) + 10 < radix))
  {
    var v: int :=
      if '0' <= c <= '9' then (c as int) - ('0' as int)
      else if 'a' <= c <= 'z' then (c as int) - ('a' as int) + 10
      else if 'A' <= c <= 'Z' then (c as int) - ('A' as int) + 10
      else 36;
    if v < radix then Some(v) else None
  }

  predicate AllDigits(s: string, radix: nat)
    requires 2 <= radix <= 36
  {
    forall i | 0 <= i < |s| :: DigitValue(s[i], radix).Some?
  }

  /** The number a digit string denotes, most significant digit first. */
  function DigitsValue(s: string, radix: nat): nat
    requires 2 <= radix <= 36 && AllDigits(s, radix)
  {
    if |s| == 0 then 0
    else
      var high := DigitsValue(s[..|s| - 1], radix);
      MulNonNegative(high, radix);
      high * radix + DigitValue(s[|s| - 1], radix).value
  }

  lemma MulNonNegative(a: nat, b: nat)
    ensures a * b >= 0
  {
  }

  /**
   * `<t>::from_str_radix(s, radix)`: an optional `+` (or `-` for a signed type)
   * followed by at least one digit, with a value that fits in `t`. No
   * whitespace, no underscores.
   */
  function FromStrRadix(s: string, radix: nat, t: IntType): (r: Option<int>)
    requires 2 <= radix <= 36
    ensures r.Some? ==> t.Min() <= r.value <= t.Max()
    ensures r.Some? ==> |s| > 0
  {
    if |s| == 0 then None
    else if (s[0] == '+' || s[0] == '-') && |s| == 1 then None
    else
      var negative := s[0] == '-' && t.Signed();
      var digits := if s[0] == '+' || negative then s[1..] else s;
      if !AllDigits(digits, radix) then None
      else
        var v: int := if negative then 0 - DigitsValue(digits, radix) else DigitsValue(digits, radix);
        if t.Min() <= v <= t.Max() then Some(v) else None
  }

  // ---------------------------------------------------------------- formatting

  function DigitChar(d: nat): char
    requires d < 36
  {
    if d < 10 then ((('0' as int) + d) as char) else ((('a' as int) + d - 10) as char)
  }

  lemma DigitCharValue(d: nat, radix: nat)
    requires 2 <= radix <= 36 && d < radix
    ensures DigitValue(DigitChar(d), radix) == Some(d)
  {
  }

  lemma DivShrinks(n: nat, r: nat)
    requires 2 <= r <= n
    ensures 0 < n / r < n
    ensures n == (n / r) * r + n % r
  {
    var q := n / r;
    assert n == q * r + n % r;
    assert q * r == q * (r - 2) + 2 * q;
    assert q * (r - 2) >= 0;
  }

  /** The digits of `n`, lower case, without leading zeros (`"0"` for zero). */
  function ToDigits(n: nat, radix: nat): (s: string)
    requires 2 <= radix <= 36
    ensures |s| > 0 && AllDigits(s, radix)
    ensures forall i | 0 <= i < |s| :: '0' <= s[i] <= '9' || 'a' <= s[i] <= 'z'
    decreases n
  {
    if n < radix then
      DigitCharValue(n, radix);
      [DigitChar(n)]
    else
      DivShrinks(n, radix);
      DigitCharValue(n % radix, radix);
      ToDigits(n / radix, radix) + [DigitChar(n % radix)]
  }

  lemma DigitsValueSnoc(high: string, c: char, radix: nat)
    requires 2 <= radix <= 36 && AllDigits(high, radix) && DigitValue(c, radix).Some?
    ensures AllDigits(high + [c], radix)
    ensures DigitsValue(high + [c], radix) == DigitsValue(high, radix) * radix + DigitValue(c, radix).value
  {
    assert (high + [c])[..|high|] == high;
  }

  /** The digits `ToDigits` prints denote the number printed. */
  lemma {:induction false} ToDigitsValue(n: nat, radix: nat)
    requires 2 <= radix <= 36
    ensures DigitsValue(ToDigits(n, radix), radix) == n
    decreases n
  {
    if n >= radix {
      DivShrinks(n, radix);
      ToDigitsValue(n / radix, radix);
      LastDigitValue(n, radix);
    } else {
      SingleDigitValue(n, radix);
    }
  }

  /** A number below the radix prints as one digit, which denotes it. */
  lemma SingleDigitValue(n: nat, radix: nat)
    requires 2 <= radix <= 36 && n < radix
    ensures DigitsValue(ToDigits(n, radix), radix) == n
  {
    var c := DigitChar(n);
    DigitCharValue(n, radix);
    assert ToDigits(n, radix) == [c];
    assert [c][..0] == [];
    assert DigitsValue([c], radix) == DigitsValue([], radix) * radix + n;
  }

  /** Appending the last digit multiplies the value of the higher digits by the radix and adds the digit. */
  lemma LastDigitValue(n: nat, radix: nat)
    requires 2 <= radix <= n && radix <= 36
    requires DigitsValue(ToDigits(n / radix, radix), radix) == n / radix
    ensures DigitsValue(ToDigits(n, radix), radix) == n
  {
    DivShrinks(n, radix);
    var q := n / radix;
    var c := DigitChar(n % radix);
    DigitCharValue(n % radix, radix);
    var high := ToDigits(q, radix);
    assert ToDigits(n, radix) == high + [c];
    DigitsValueSnoc(high, c, radix);
    SnocValue(DigitsValue(high, radix), q, radix, n % radix, n);
  }

  lemma SnocValue(v: nat, q: nat, radix: nat, d: nat, n: nat)
    requires v == q && n == q * radix + d
    ensures v * radix + d == n
  {
  }

  /** `format!("{:x}", x)` for an `i64`: a negative value prints as its 64-bit two's complement. */
  function LowerHex(x: I64): (s: string)
    ensures |s| > 0
    ensures forall i | 0 <= i < |s| :: '0' <= s[i] <= '9' || 'a' <= s[i] <= 'f'
  {
    var s := ToDigits(if x < 0 then x + 0x1_0000_0000_0000_0000 else x, 16);
    assert forall i | 0 <= i < |s| :: DigitValue(s[i], 16).Some?;
    s
  }

  /** `format!("{}", x)`: an optional `-` and the decimal digits of the magnitude. */
  function ToDecimal(x: int): (s: string)
    ensures |s| > 0
  {
    if x < 0 then "-" + ToDigits(-x, 10) else ToDigits(x, 10)
  }

  /** `{}` prints a `-` exactly for a negative number, and otherwise decimal digits only. */
  lemma DecimalShape(x: int)
    ensures var s := ToDecimal(x);
      (s[0] == '-' <==> x < 0)
      && forall i | 0 <= i < |s| && (i > 0 || x >= 0) :: '0' <= s[i] <= '9'
  {
    var d := ToDigits(if x < 0 then -x else x, 10);
    assert forall i | 0 <= i < |d| :: DigitValue(d[i], 10).Some?;
  }

  /** A non-negative id printed with `{:x}` parses back with `from_str_radix(_, 16)`. */
  lemma HexRoundTrip(x: I64)
    requires x >= 0
    ensures FromStrRadix(LowerHex(x), 16, I64Type) == Some(x)
  {
    var s := LowerHex(x);
    ToDigitsValue(if x < 0 then x + 0x1_0000_0000_0000_0000 else x, 16);
    assert DigitValue(s[0], 16).Some?;
  }

  /** A negative id printed with `{:x}` is too large for `i64` and does not parse back. */
  lemma HexNegativeDoesNotRoundTrip(x: I64)
    requires x < 0
    ensures FromStrRadix(LowerHex(x), 16, I64Type) == None
  {
    var s := LowerHex(x);
    ToDigitsValue(if x < 0 then x + 0x1_0000_0000_0000_0000 else x, 16);
    assert DigitValue(s[0], 16).Some?;
  }

  /** Distinct ids print as distinct lower-case hex strings. */
  lemma LowerHexInjective(a: I64, b: I64)
    requires LowerHex(a) == LowerHex(b)
    ensures a == b
  {
    var na := if a < 0 then a + 0x1_0000_0000_0000_0000 else a;
    var nb := if b < 0 then b + 0x1_0000_0000_0000_0000 else b;
    ToDigitsValue(na, 16);
    ToDigitsValue(nb, 16);
  }

  /** Every value of an integer type prints (with `{}`) as text that parses back to it. */
  lemma DecimalRoundTrip(x: int, t: IntType)
    requires t.Min() <= x <= t.Max()
    ensures FromStrRadix(ToDecimal(x), 10, t) == Some(x)
  {
    if x < 0 {
      var n: nat := -x;
      assert ToDecimal(x) == "-" + ToDigits(n, 10);
      NegativeDecimalRoundTrip(n, t);
    } else {
      assert ToDecimal(x) == ToDigits(x, 10);
      DigitsRoundTrip(x, t);
    }
  }

  lemma DigitsRoundTrip(n: nat, t: IntType)
    requires n <= t.Max()
    ensures FromStrRadix(ToDigits(n, 10), 10, t) == Some(n)
  {
    var d := ToDigits(n, 10);
    ToDigitsValue(n, 10);
    assert DigitValue(d[0], 10).Some?;
    assert d[0] != '+' && d[0] != '-';
  }

  lemma NegativeDecimalRoundTrip(n: nat, t: IntType)
    requires 0 < n <= -t.Min()
    ensures FromStrRadix("-" + ToDigits(n, 10), 10, t) == Some(-(n as int))
  {
    ToDigitsValue(n, 10);
    NegativeDigits(ToDigits(n, 10), 10, t);
  }

  /** A `-` followed by digits parses, for a signed type, as minus their value when that fits. */
  lemma NegativeDigits(d: string, radix: nat, t: IntType)
    requires 2 <= radix <= 36 && |d| > 0 && AllDigits(d, radix)
    requires t.Signed() && DigitsValue(d, radix) <= -t.Min()
    ensures FromStrRadix("-" + d, radix, t) == Some(-(DigitsValue(d, radix) as int))
  {
    var s := "-" + d;
    assert s[0] == '-' && |s| > 1 && s[1..] == d;
  }
}
