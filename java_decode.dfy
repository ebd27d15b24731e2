/**
 * java.lang.Integer.decode over ASCII text: an optional sign, then a hex
 * ("0x", "0X" or "#"), octal (a leading "0" followed by more) or decimal
 * numeral, whose signed value must fit a Java int.  Failures (Java's
 * NumberFormatException) are None.
 */
module JavaDecode {
  import opened JavaInt
  import opened Wrappers

  /** Character.digit for ASCII: the value of c as a digit of radix, if it is one. */
  function DigitValue(c: char, radix: nat): (r: Option<nat>)
    ensures r.Some? ==> r.value < radix
  {
    var d := if '0' <= c <= '9' then c as int - '0' as int
             else if 'a' <= c <= 'z' then c as int - 'a' as int + 10
             else if 'A' <= c <= 'Z' then c as int - 'A' as int + 10
             else radix;
    if d < radix then Some(d) else None
  }

  /** Every character of s is a digit of radix. */
  predicate AllDigits(s: string, radix: nat)
  {
    forall i :: 0 <= i < |s| ==> DigitValue(s[i], radix).Some?
  }

  /** The value of a run of digits, most significant first. */
  function Value(s: string, radix: nat): nat
    requires AllDigits(s, radix)
  {
    if s == [] then 0
    else
      Value(s[..|s| - 1], radix) * radix + DigitValue(s[|s| - 1], radix).value
  }

  /**
   * Integer.valueOf(digits, radix) as decode uses it on the text after the
   * sign and the radix prefix: the digits' value, negated for a minus sign,
   * when the digits are a nonempty run and the result fits an int.  (decode
   * retries a negative numeral with the minus sign put back, which is what
   * lets -2^31 through.)
   */
  function ParseDigits(digits: string, radix: nat, negative: bool): (r: Option<int32>)
    ensures r.Some? ==> digits != [] && AllDigits(digits, radix)
    ensures r.Some? ==> r.value == (if negative then 0 - Value(digits, radix) else Value(digits, radix))
  {
    if digits == [] || !AllDigits(digits, radix) then None
    else
      var v: int := if negative then 0 - Value(digits, radix) else Value(digits, radix);
      if INT_MIN <= v <= INT_MAX then Some(v) else None
  }

  /** The radix decode reads after the sign, and the text its digits start at. */
  function RadixOf(rest: string): (r: (nat, string))
    ensures r.0 in {8, 10, 16} && |r.1| <= |rest|
  {
    if |rest| >= 2 && (rest[..2] == "0x" || rest[..2] == "0X") then (16, rest[2..])
    else if |rest| >= 1 && rest[0] == '#' then (16, rest[1..])
    else if |rest| >= 2 && rest[0] == '0' then (8, rest[1..])
    else (10, rest)
  }

  /** Integer.decode(nm). */
  function Decode(nm: string): (r: Option<int32>)
    ensures nm == [] ==> r.None?
    ensures r.Some? && r.value < 0 ==> nm[0] == '-'
  {
    if nm == [] then None
    else
      var negative := nm[0] == '-';
      var index := if nm[0] == '-' || nm[0] == '+' then 1 else 0;
      var (radix, digits) := RadixOf(nm[index..]);
      if |digits| > 0 && (digits[0] == '-' || digits[0] == '+') then None
      else ParseDigits(digits, radix, negative)
  }

  // ---------------------------------------------------------------------
  // Formatting, the partner of decoding
  // ---------------------------------------------------------------------

  /** The lower-case digit character for d. */
  function DigitChar(d: nat): char
    requires d < 16
  {
    if d < 10 then ('0' as int + d) as char else ('a' as int + d - 10) as char
  }

  /** The digits of n in radix, most significant first, with no leading zero. */
  function Digits(n: nat, radix: nat): string
    requires 2 <= radix <= 16
    decreases n
  {
    if n < radix then [DigitChar(n)] else Digits(n / radix, radix) + [DigitChar(n % radix)]
  }

  /** DigitValue reads DigitChar back. */
  lemma DigitCharValue(d: nat, radix: nat)
    requires d < radix <= 16
    ensures DigitValue(DigitChar(d), radix) == Some(d)
    ensures '0' <= DigitChar(d) <= '9' || 'a' <= DigitChar(d) <= 'f'
    ensures DigitChar(d) == '0' <==> d == 0
  {
  }

  /** One step of writing n in radix: the quotient is smaller, and quotient and remainder give n back. */
  lemma DivStep(n: nat, radix: nat)
    requires 2 <= radix <= n
    ensures 0 < n / radix < n && n == (n / radix) * radix + n % radix && n % radix < radix
  {
  }

  /** Digits is read back by Value, is never empty and starts with 0 only for 0. */
  lemma {:induction false} DigitsValue(n: nat, radix: nat)
    requires 2 <= radix <= 16
    ensures Digits(n, radix) != [] && AllDigits(Digits(n, radix), radix)
    ensures Value(Digits(n, radix), radix) == n
    ensures Digits(n, radix)[0] == '0' <==> n == 0
    ensures '0' <= Digits(n, radix)[0] <= '9' || 'a' <= Digits(n, radix)[0] <= 'f'
    decreases n
  {
    var s := Digits(n, radix);
    if n < radix {
      DigitCharValue(n, radix);
    } else {
      DivStep(n, radix);
      var p := Digits(n / radix, radix);
      DigitsValue(n / radix, radix);
      DigitCharValue(n % radix, radix);
      assert s == p + [DigitChar(n % radix)];
      assert s[..|s| - 1] == p;
      assert forall i :: 0 <= i < |s| ==> DigitValue(s[i], radix).Some? by {
        forall i | 0 <= i < |s| ensures DigitValue(s[i], radix).Some? {
          if i < |p| {
            assert s[i] == p[i];
          }
        }
      }
      assert s[0] == p[0];
    }
  }

  /** Text that starts with a digit other than 0, or is "0" alone, is read as decimal. */
  lemma RadixOfDecimal(rest: string)
    requires rest != [] && ('1' <= rest[0] <= '9' || rest == "0")
    ensures RadixOf(rest) == (10, rest)
  {
    if |rest| >= 2 {
      assert rest[..2][0] == rest[0];
    }
  }

  /** Text that starts with "0x" is read as hex from the third character on. */
  lemma RadixOfHex(digits: string)
    ensures RadixOf("0x" + digits) == (16, digits)
  {
    var rest := "0x" + digits;
    assert rest[..2] == "0x";
    assert rest[2..] == digits;
  }

  /** Text that starts with 0 and has more after it is read as octal from the second character on. */
  lemma RadixOfOctal(digits: string)
    requires digits != [] && '0' <= digits[0] <= '9'
    ensures RadixOf("0" + digits) == (8, digits)
  {
    var rest := "0" + digits;
    assert rest[..2][1] == digits[0];
    assert rest[1..] == digits;
  }

  /** decode of a numeral after an optional minus sign: the sign, then the radix and digits read from the rest. */
  lemma DecodeSigned(negative: bool, rest: string, radix: nat, digits: string)
    requires rest != [] && rest[0] != '-' && rest[0] != '+'
    requires RadixOf(rest) == (radix, digits) && (digits == [] || (digits[0] != '-' && digits[0] != '+'))
    ensures Decode((if negative then "-" else "") + rest) == ParseDigits(digits, radix, negative)
  {
    var nm := (if negative then "-" else "") + rest;
    assert nm[(if negative then 1 else 0)..] == rest;
  }

  /** A decimal numeral is "0" or starts with a digit other than 0, and reads back as its number. */
  lemma DecimalLead(m: nat)
    ensures Digits(m, 10) == "0" || '1' <= Digits(m, 10)[0] <= '9'
    ensures AllDigits(Digits(m, 10), 10) && Value(Digits(m, 10), 10) == m
  {
    DigitsValue(m, 10);
    if m == 0 {
      assert Digits(m, 10) == [DigitChar(0)];
    }
  }

  /** Integer.toString(n): the decimal numeral, with a minus sign when negative. */
  function ToDecimal(n: int32): string
  {
    if n < 0 then "-" + Digits(0 - n as int, 10) else Digits(n, 10)
  }

  /** decode reads back every decimal numeral Integer.toString writes, INT_MIN included. */
  lemma DecodeDecimal(n: int32)
    ensures Decode(ToDecimal(n)) == Some(n)
  {
    var m: nat := if n < 0 then 0 - n as int else n;
    DecimalLead(m);
    var d := Digits(m, 10);
    RadixOfDecimal(d);
    DecimalSign(n);
    DecodeSigned(n < 0, d, 10, d);
  }

  /** ToDecimal is the sign, then the digits. */
  lemma DecimalSign(n: int32)
    ensures ToDecimal(n) == (if n < 0 then "-" else "") + Digits(if n < 0 then 0 - n as int else n, 10)
  {
  }

  /** A hex numeral "0x…", with a minus sign when negative, as overlay files write types. */
  function ToHex(n: int32): string
  {
    if n < 0 then "-0x" + Digits(0 - n as int, 16) else "0x" + Digits(n, 16)
  }

  /** decode reads back every hex numeral ToHex writes. */
  lemma DecodeHex(n: int32)
    ensures Decode(ToHex(n)) == Some(n)
  {
    var m: nat := if n < 0 then 0 - n as int else n;
    DigitsValue(m, 16);
    var d := Digits(m, 16);
    RadixOfHex(d);
    HexSign(n);
    DecodeSigned(n < 0, "0x" + d, 16, d);
  }

  /** ToHex is the sign, then "0x" and the digits. */
  lemma HexSign(n: int32)
    ensures ToHex(n) == (if n < 0 then "-" else "") + ("0x" + Digits(if n < 0 then 0 - n as int else n, 16))
  {
  }

  /** A leading "0" makes the rest octal: "0" followed by the octal digits of n reads back as n. */
  lemma DecodeOctal(n: nat)
    requires n <= INT_MAX
    ensures Decode("0" + Digits(n, 8)) == Some(n)
  {
    DigitsValue(n, 8);
    var d := Digits(n, 8);
    assert '0' <= d[0] <= '9' by {
      DigitCharValue(0, 8);
      if n >= 8 {
        assert d[0] == Digits(n / 8, 8)[0];
      }
    }
    RadixOfOctal(d);
    DecodeSigned(false, "0" + d, 8, d);
    assert "" + ("0" + d) == "0" + d;
  }
}
