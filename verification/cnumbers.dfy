/** C's integer arithmetic and number parsing as the engine relies on it:
    the 32-bit `int` an assignment keeps, `/` truncating toward zero, and
    `strtol` / `strtod` reporting how much of a string they consumed.

    `long` is 64 bits wide (an LP64 host). Numbers read by `strtod` are
    kept as exact reals: the rounding to the nearest double is not
    modelled, and neither are the "inf", "nan" and hexadecimal spellings. */
module CNumbers {
  import opened CStrings

  const Two31 := 0x8000_0000
  const Two32 := 0x1_0000_0000
  const Two63 := 0x8000_0000_0000_0000

  // ---------------------------------------------------------------------
  // Integer arithmetic
  // ---------------------------------------------------------------------

  /** The value a 32-bit C `int` holds after an assignment: the low 32 bits
      of `x`, read as two's complement. */
  function Wrap32(x: int): (r: int)
    ensures -Two31 <= r < Two31
    ensures (r - x) % Two32 == 0
  {
    var m := x % Two32;
    if m >= Two31 then m - Two32 else m
  }

  lemma Wrap32Small(x: int)
    requires -Two31 <= x < Two31
    ensures Wrap32(x) == x
  {
    if x < 0 {
      assert x % Two32 == x + Two32;
    }
  }

  /** C's `/` on `int`: the quotient truncated toward zero. */
  function Quot(a: int, b: int): (r: int)
    requires b > 0
    ensures a >= 0 ==> r == a / b
    ensures a < 0 ==> r == -((-a) / b)
  {
    if a >= 0 then a / b else -((-a) / b)
  }

  /** A `double` assigned to an `int`: the fraction is dropped, rounding
      toward zero. */
  function TruncReal(x: real): (r: int)
    ensures x >= 0.0 ==> r >= 0 && r as real <= x < r as real + 1.0
    ensures x < 0.0 ==> r <= 0 && r as real - 1.0 < x <= r as real
  {
    if x >= 0.0 then x.Floor else -((-x).Floor)
  }

  /** `strtol` saturates at the bounds of a 64-bit `long`. */
  function ClampLong(x: int): (r: int)
    ensures -Two63 <= r < Two63
    ensures -Two63 <= x < Two63 ==> r == x
    ensures x < -Two63 ==> r == -Two63
    ensures x >= Two63 ==> r == Two63 - 1
  {
    if x < -Two63 then -Two63 else if x >= Two63 then Two63 - 1 else x
  }

  // ---------------------------------------------------------------------
  // Digit runs
  // ---------------------------------------------------------------------

  /** A digit of the given radix (at most 16), either case. */
  predicate IsDigitIn(c: char, radix: nat) {
    IsHexDigit(c) && HexDigitValue(c) < radix
  }

  /** End of the run of radix digits that starts at `i`. */
  function RadixRunEnd(s: string, i: nat, radix: nat): (r: nat)
    requires i <= |s|
    ensures i <= r <= |s|
    ensures forall k :: i <= k < r ==> IsDigitIn(s[k], radix)
    ensures r < |s| ==> !IsDigitIn(s[r], radix)
    decreases |s| - i
  {
    if i < |s| && IsDigitIn(s[i], radix) then RadixRunEnd(s, i + 1, radix) else i
  }

  /** The value of a string of radix digits, most significant first. */
  function RadixValue(s: string, radix: nat): nat
    requires forall i :: 0 <= i < |s| ==> IsDigitIn(s[i], radix)
  {
    if |s| == 0 then 0
    else
      var front := s[..|s| - 1];
      assert IsDigitIn(s[|s| - 1], radix);
      assert forall i :: 0 <= i < |front| ==> front[i] == s[i];
      ShiftIn(RadixValue(front, radix), radix, HexDigitValue(s[|s| - 1]))
  }

  /** A value with one more digit `d` appended in the given radix. */
  function ShiftIn(v: nat, radix: nat, d: nat): nat {
    v * radix + d
  }

  /** Position after the white space and the optional sign that open a number. */
  function SignEnd(s: string): (j: nat)
    ensures j <= |s|
  {
    var i := SkipSpace(s, 0);
    if i < |s| && (s[i] == '-' || s[i] == '+') then i + 1 else i
  }

  /** Whether the number that opens `s` carries a minus sign. */
  predicate Negative(s: string) {
    var i := SkipSpace(s, 0);
    i < |s| && s[i] == '-'
  }

  /** What a C conversion function returns: the value and how many
      characters it consumed (0 when it converted nothing). */
  datatype Parsed<T> = Parsed(value: T, end: nat)

  // ---------------------------------------------------------------------
  // strtol
  // ---------------------------------------------------------------------

  /** The radix `strtol` settles on, and where its digits begin, for the
      number whose optional sign ends at `j`. Base 0 reads "0x" as
      hexadecimal and a leading '0' as octal; "0x" without a hex digit
      after it is just the digit 0. */
  function Radix(s: string, j: nat, base: nat): (r: (nat, nat))
    requires j <= |s|
    requires base == 0 || base == 8 || base == 10 || base == 16
    ensures j <= r.1 <= |s|
    ensures r.0 == 8 || r.0 == 10 || r.0 == 16
    ensures base != 0 ==> r.0 == base
  {
    if (base == 0 || base == 16) && j + 2 < |s| && s[j] == '0' && (s[j + 1] == 'x' || s[j + 1] == 'X')
       && IsDigitIn(s[j + 2], 16)
    then (16, j + 2)
    else if base == 0 && j < |s| && s[j] == '0' then (8, j)
    else if base == 0 then (10, j)
    else (base, j)
  }

  /** `strtol(s, &end, base)` for base 0, 8, 10 or 16. */
  function Strtol(s: string, base: nat): (r: Parsed<int>)
    requires base == 0 || base == 8 || base == 10 || base == 16
    ensures r.end <= |s|
    ensures -Two63 <= r.value < Two63
    ensures r.end == 0 ==> r.value == 0
    ensures r.end > 0 <==> SignEnd(s) < |s| && IsDigitIn(s[SignEnd(s)], if base == 0 then 10 else base)
    ensures r.end > 0 ==> IsHexDigit(s[r.end - 1])
  {
    var j := SignEnd(s);
    var (radix, k) := Radix(s, j, base);
    var e := RadixRunEnd(s, k, radix);
    if e == k then Parsed(0, 0)
    else
      RunSlice(s, k, e, radix);
      var v: int := RadixValue(s[k..e], radix);
      Parsed(ClampLong(if Negative(s) then -v else v), e)
  }

  /** The slice of a run of radix digits holds nothing but radix digits. */
  lemma RunSlice(s: string, k: nat, e: nat, radix: nat)
    requires k <= e <= |s|
    requires forall i :: k <= i < e ==> IsDigitIn(s[i], radix)
    ensures forall i :: 0 <= i < |s[k..e]| ==> IsDigitIn(s[k..e][i], radix)
  {
    forall i | 0 <= i < |s[k..e]|
      ensures IsDigitIn(s[k..e][i], radix)
    {
      assert s[k..e][i] == s[k + i];
    }
  }

  lemma {:induction false} RadixRunEndAll(s: string, i: nat, radix: nat)
    requires i <= |s|
    requires forall k :: i <= k < |s| ==> IsDigitIn(s[k], radix)
    ensures RadixRunEnd(s, i, radix) == |s|
    decreases |s| - i
  {
    if i < |s| {
      RadixRunEndAll(s, i + 1, radix);
    }
  }

  /** Decimal digits read the same through `RadixValue` as through `DecimalValue`. */
  lemma {:induction false} RadixValueDecimal(s: string)
    requires forall i :: 0 <= i < |s| ==> IsDigit(s[i])
    ensures RadixValue(s, 10) == DecimalValue(s)
    decreases |s|
  {
    if |s| > 0 {
      RadixValueDecimal(s[..|s| - 1]);
    }
  }

  /** The digits `%d` writes for a natural number, read back by `strtol`. */
  lemma StrtolDigits(s: string, base: nat)
    requires base == 0 || base == 10
    requires |s| >= 1 && forall i :: 0 <= i < |s| ==> IsDigit(s[i])
    requires s[0] == '0' ==> |s| == 1
    ensures RadixRunEnd(s, 0, if base == 0 && s[0] == '0' then 8 else 10) == |s|
    ensures RadixValue(s, if base == 0 && s[0] == '0' then 8 else 10) == DecimalValue(s)
  {
    var radix := if base == 0 && s[0] == '0' then 8 else 10;
    RadixRunEndAll(s, 0, radix);
    RadixValueDecimal(s);
    if radix == 8 {
      assert s == "0";
      assert s[..0] == [];
    }
  }

  /** `strtol` reads back exactly what `sprintf("%d")` writes, consuming all of it. */
  lemma StrtolOfDecimal(n: int, base: nat)
    requires base == 0 || base == 10
    requires -Two63 <= n < Two63
    ensures Strtol(IntToDecimal(n), base) == Parsed(n, |IntToDecimal(n)|)
  {
    var s := IntToDecimal(n);
    assert !IsSpace(s[0]);
    assert SkipSpace(s, 0) == 0;
    if n >= 0 {
      StrtolOfNat(n, base);
    } else {
      StrtolOfNegative(n, base);
    }
  }

  lemma StrtolOfNat(n: nat, base: nat)
    requires base == 0 || base == 10
    requires n < Two63
    requires SkipSpace(IntToDecimal(n), 0) == 0
    ensures Strtol(IntToDecimal(n), base) == Parsed(n, |IntToDecimal(n)|)
  {
    var s := IntToDecimal(n);
    DecimalRoundTrip(n);
    DecimalNoLeadingZero(n);
    StrtolDigits(s, base);
    assert s[0..|s|] == s;
  }

  lemma StrtolOfNegative(n: int, base: nat)
    requires base == 0 || base == 10
    requires -Two63 <= n < 0
    requires SkipSpace(IntToDecimal(n), 0) == 0
    ensures Strtol(IntToDecimal(n), base) == Parsed(n, |IntToDecimal(n)|)
  {
    var s := IntToDecimal(n);
    var d := NatToDecimal(-n);
    assert s == "-" + d;
    assert s[1..] == d;
    assert SignEnd(s) == 1 && Negative(s);
    assert d[0] != '0' by { DecimalNoLeadingZero(-n); }
    assert Radix(s, 1, base) == (10, 1);
    assert RadixRunEnd(s, 1, 10) == |s| by {
      RadixRunEndAll(s, 1, 10);
    }
    assert RadixValue(s[1..|s|], 10) == -n by {
      assert s[1..|s|] == d;
      RadixValueDecimal(d);
      DecimalRoundTrip(-n);
    }
  }

  // ---------------------------------------------------------------------
  // strtod
  // ---------------------------------------------------------------------

  function Pow10(n: nat): (r: nat)
    ensures r >= 1
  {
    if n == 0 then 1 else 10 * Pow10(n - 1)
  }

  /** `m` times ten to the power `e`. */
  function Scale(m: real, e: int): real {
    if e >= 0 then m * Pow10(e) as real else m / Pow10(-e) as real
  }

  /** Where the digits and the optional fraction of a decimal number that
      starts at `j` end, and how many digits they hold. A '.' belongs to
      the number only when a digit stands on one side of it. */
  function MantissaEnd(s: string, j: nat): (r: nat)
    requires j <= |s|
    ensures j <= r <= |s|
  {
    var intEnd := DigitRunEnd(s, j);
    if intEnd < |s| && s[intEnd] == '.' then
      var fracEnd := DigitRunEnd(s, intEnd + 1);
      if fracEnd == intEnd + 1 && intEnd == j then j else fracEnd
    else intEnd
  }

  /** The characters of the mantissa with the '.' left out. */
  function MantissaDigits(s: string, j: nat): (r: string)
    requires j <= |s|
    ensures forall i :: 0 <= i < |r| ==> IsDigit(r[i])
  {
    var intEnd := DigitRunEnd(s, j);
    var e := MantissaEnd(s, j);
    if e > intEnd then s[j..intEnd] + s[intEnd + 1..e] else s[j..intEnd]
  }

  /** The end of an exponent part "e[+-]digits" at `i`, or `i` itself when
      there is none (an 'e' without digits is not consumed). */
  function ExponentEnd(s: string, i: nat): (r: nat)
    requires i <= |s|
    ensures i <= r <= |s|
  {
    if i < |s| && (s[i] == 'e' || s[i] == 'E') then
      var k := if i + 1 < |s| && (s[i + 1] == '+' || s[i + 1] == '-') then i + 2 else i + 1;
      var d := DigitRunEnd(s, k);
      if d == k then i else d
    else i
  }

  /** The signed value of the exponent part between `i` and `ExponentEnd(s, i)`. */
  function ExponentValue(s: string, i: nat): int
    requires i <= |s|
  {
    var e := ExponentEnd(s, i);
    if e == i then 0
    else
      var k := if s[i + 1] == '+' || s[i + 1] == '-' then i + 2 else i + 1;
      var v: int := DecimalValue(s[k..e]);
      if s[i + 1] == '-' then -v else v
  }

  /** `strtod(s, &end)` on decimal input. */
  function Strtod(s: string): (r: Parsed<real>)
    ensures r.end <= |s|
    ensures r.end == 0 ==> r.value == 0.0
    ensures r.end > 0 <==>
      var j := SignEnd(s);
      (j < |s| && IsDigit(s[j])) || (j + 1 < |s| && s[j] == '.' && IsDigit(s[j + 1]))
  {
    var j := SignEnd(s);
    var m := MantissaEnd(s, j);
    if m == j then Parsed(0.0, 0)
    else
      var intEnd := DigitRunEnd(s, j);
      var fraction := if m > intEnd then m - intEnd - 1 else 0;
      var v := Scale(DecimalValue(MantissaDigits(s, j)) as real / Pow10(fraction) as real, ExponentValue(s, m));
      Parsed(if Negative(s) then -v else v, ExponentEnd(s, m))
  }

  lemma {:induction false} DigitRunEndAllOf(s: string, i: nat)
    requires i <= |s|
    requires forall k :: i <= k < |s| ==> IsDigit(s[k])
    ensures DigitRunEnd(s, i) == |s|
    decreases |s| - i
  {
    if i < |s| {
      DigitRunEndAllOf(s, i + 1);
    }
  }

  /** `strtod` on a sign followed by nothing but decimal digits consumes
      all of it and reads their value. */
  lemma StrtodOfDigits(s: string, j: nat)
    requires j < |s| && SignEnd(s) == j
    requires forall k :: j <= k < |s| ==> IsDigit(s[k])
    ensures Strtod(s).end == |s|
    ensures Strtod(s).value == if Negative(s) then -(DecimalValue(s[j..]) as real) else DecimalValue(s[j..]) as real
  {
    DigitRunEndAllOf(s, j);
    assert MantissaEnd(s, j) == |s|;
    assert MantissaDigits(s, j) == s[j..];
    assert ExponentEnd(s, |s|) == |s|;
    assert ExponentValue(s, |s|) == 0;
    assert Pow10(0) == 1;
  }

  /** `strtod` reads back an integer written by `sprintf("%d")`, consuming all of it. */
  lemma StrtodOfDecimal(n: int)
    ensures Strtod(IntToDecimal(n)) == Parsed(n as real, |IntToDecimal(n)|)
  {
    var s := IntToDecimal(n);
    var m: nat := if n >= 0 then n else -n;
    var d := NatToDecimal(m);
    DecimalRoundTrip(m);
    assert !IsSpace(s[0]);
    assert SkipSpace(s, 0) == 0;
    var j := if n >= 0 then 0 else 1;
    assert s[j..] == d;
    assert SignEnd(s) == j;
    assert Negative(s) <==> n < 0;
    StrtodOfDigits(s, j);
  }
}
