/**
 * The register and immediate parsers. `parse_register` and `parse_immediate`
 * behave the same in both assemblers within this model: the single-pass one
 * catches the `int()` failure and raises its own error, the two-pass one lets
 * it through, and both end in a failure.
 */
module Operands {
  import opened Results
  import opened Text
  import opened Isa
  import opened Format
  import opened Bits

  /** `parse_register`: an ABI name or x0..x31, case and surrounding blanks ignored. */
  function ParseRegister(token: string): (r: Result<nat>)
    ensures r.Ok? ==> r.value < 32
    ensures r.Err? ==> r.error == InvalidRegister
  {
    var s := Lower(Strip(token));
    match RegisterNumber(s)
    case Some(n) => Ok(n)
    case None =>
      if StartsWith(s, "x") then
        match ParseDecimal(s[1..])
        case Some(v) => if 0 <= v <= 31 then Ok(v) else Err(InvalidRegister)
        case None => Err(InvalidRegister)
      else Err(InvalidRegister)
  }

  /**
   * `parse_register` strips and lower-cases the token before it looks at
   * it: a token names the same register as its stripped, lower-case form.
   */
  lemma RegisterCaseAndBlanks(token: string)
    ensures ParseRegister(token) == ParseRegister(Lower(Strip(token)))
  {
    LowerStripped(token);
  }

  /** ` RA ` is `ra`, register 1. */
  lemma SpacedAlias()
    ensures ParseRegister(" RA ") == Ok(1)
  {
    RegisterCaseAndBlanks(" RA ");
    assert Strip(" RA ") == "RA" by {
      assert LeadingBlanks(" RA ") == 1;
      assert TrailingBlanks(" RA "[1..]) == 1;
    }
    assert Lower("RA") == "ra";
    StripNoSpace("ra");
    assert RegisterNumber("ra") == Some(1);
  }

  /** `X5` is `x5`, register 5. */
  lemma UpperCaseRegister()
    ensures ParseRegister("X5") == Ok(5)
  {
    RegisterCaseAndBlanks("X5");
    StripNoSpace("X5");
    assert Lower("X5") == "x5";
    NumberedRegister(5);
    assert "x" + Digits(5, 10) == "x5";
  }

  /** `parse_immediate`: a decimal numeral, or a hexadecimal one written with `0x` (after an optional `-`). */
  function ParseImmediate(token: string): (r: Result<int>)
    ensures r.Err? ==> r.error == InvalidImmediate
  {
    ParseNumeral(Strip(token))
  }

  /** `parse_immediate` on a stripped token. */
  function ParseNumeral(s: string): (r: Result<int>)
    ensures r.Ok? <==> IsHexLiteral(s) || IsDecimalLiteral(s)
    ensures r.Err? ==> r.error == InvalidImmediate
  {
    if IsHexLiteral(s) then Ok(HexLiteralValue(s))
    else
      match ParseDecimal(s)
      case Some(v) => Ok(v)
      case None => Err(InvalidImmediate)
  }

  /** Python's `str(v)`. */
  function DecimalText(v: int): string {
    if v < 0 then "-" + Digits(-v, 10) else Digits(v, 10)
  }

  /** Python's `hex(v)`. */
  function HexText(v: int): string {
    if v < 0 then "-0x" + Digits(-v, 16) else "0x" + Digits(v, 16)
  }

  // ---------------------------------------------------------------------
  // Round trips

  /** Every integer printed in decimal parses back to itself. */
  lemma DecimalRoundTrip(v: int)
    ensures ParseImmediate(DecimalText(v)) == Ok(v)
  {
    var n := if v < 0 then -v else v;
    var d := Digits(n, 10);
    DigitsText(n, 10);
    DigitsValue(n, 10);
    var s := DecimalText(v);
    assert AllDigits(d);
    if v < 0 {
      NegativeDecimalToken(d);
      assert s[0] == '-' && s[|s| - 1] == d[|d| - 1];
    } else {
      DecimalToken(d);
    }
    StripNoSpace(s);
  }

  /** Every integer printed in hexadecimal parses back to itself. */
  lemma HexRoundTrip(v: int)
    ensures ParseImmediate(HexText(v)) == Ok(v)
  {
    var n := if v < 0 then -v else v;
    var d := Digits(n, 16);
    DigitsText(n, 16);
    DigitsValue(n, 16);
    var s := HexText(v);
    if v < 0 {
      NegativeHexToken(d);
    } else {
      HexToken(d);
    }
    assert s[|s| - 1] == d[|d| - 1];
    StripNoSpace(s);
  }

  lemma DecimalToken(d: string)
    requires |d| > 0 && AllDigits(d)
    ensures ParseNumeral(d) == Ok(NumeralValue(d, 10))
  {
    NotHexLiteral(d);
    assert AllDigits(d);
  }

  lemma NegativeDecimalToken(d: string)
    requires |d| > 0 && AllDigits(d)
    ensures ParseNumeral("-" + d) == Ok(-(NumeralValue(d, 10) as int))
  {
    NegativeDecimal(d);
    NegativeNotHex(d);
  }

  lemma NegativeDecimal(d: string)
    requires |d| > 0 && AllDigits(d)
    ensures ParseDecimal("-" + d) == Some(-(NumeralValue(d, 10) as int))
  {
    var s := "-" + d;
    Prefixed("-", d);
    assert s[0] == '-' && !IsDigit(s[0]) && s[1..] == d;
    assert !AllDigits(s) by { assert !IsDigit(s[0]); }
  }

  lemma NegativeNotHex(d: string)
    requires |d| > 0 && AllDigits(d)
    ensures !IsHexLiteral("-" + d)
  {
    var s := "-" + d;
    assert s[1] == d[0];
    assert |s| > 2 ==> s[2] == d[1];
    NotHexLiteral(s);
  }

  /** A token whose second and third characters are not `x` is not hexadecimal. */
  lemma NotHexLiteral(s: string)
    requires |s| > 1 ==> s[1] != 'x'
    requires |s| > 2 ==> s[2] != 'x'
    ensures !IsHexLiteral(s)
  {
    if |s| > 2 {
      assert s[..2][1] == s[1];
    }
    if |s| > 3 {
      assert s[..3][2] == s[2];
    }
  }

  lemma HexToken(d: string)
    requires |d| > 0 && AllHexDigits(d)
    ensures ParseNumeral("0x" + d) == Ok(NumeralValue(d, 16))
  {
    var s := "0x" + d;
    Prefixed("0x", d);
    assert AllHexDigits(s[2..]);
    assert IsHexLiteral(s) && s[0] == '0';
  }

  lemma NegativeHexToken(d: string)
    requires |d| > 0 && AllHexDigits(d)
    ensures ParseNumeral("-0x" + d) == Ok(-(NumeralValue(d, 16) as int))
  {
    var s := "-0x" + d;
    Prefixed("-0x", d);
    assert AllHexDigits(s[3..]);
    assert IsHexLiteral(s) && s[0] == '-';
  }

  lemma Prefixed(prefix: string, d: string)
    ensures (prefix + d)[..|prefix|] == prefix && (prefix + d)[|prefix|..] == d
  {
  }

  /** Every name in the register table parses to its number, the same number as its `xN` form. */
  lemma AliasAgrees(name: string)
    requires RegisterNumber(name).Some?
    ensures RegisterNumber(name).value < 32
    ensures ParseRegister(name) == Ok(RegisterNumber(name).value)
    ensures ParseRegister(name) == ParseRegister("x" + Digits(RegisterNumber(name).value, 10))
  {
    TableName(name);
    StripNoSpace(name);
    NumberedRegister(RegisterNumber(name).value);
  }

  /** The register table's names are lower case and without blanks, and its numbers are below 32. */
  lemma TableName(name: string)
    requires RegisterNumber(name).Some?
    ensures RegisterNumber(name).value < 32 && Lower(name) == name
    ensures forall k :: 0 <= k < |name| ==> !IsSpace(name[k])
  {
    forall k | 0 <= k < |name|
      ensures !IsSpace(name[k]) && LowerChar(name[k]) == name[k]
    {
    }
  }

  /** Register xN, for N in 0..31, is register N. */
  lemma NumberedRegister(n: nat)
    requires n < 32
    ensures ParseRegister("x" + Digits(n, 10)) == Ok(n)
  {
    DigitsText(n, 10);
    DigitsValue(n, 10);
    RegisterTable(n);
    RegisterToken(Digits(n, 10));
  }

  lemma RegisterToken(d: string)
    requires |d| > 0 && DigitText(d, 10) && NumeralValue(d, 10) < 32
    requires RegisterNumber("x" + d) == Some(NumeralValue(d, 10))
    ensures ParseRegister("x" + d) == Ok(NumeralValue(d, 10))
  {
    var s := "x" + d;
    StripNoSpace(s);
    assert Lower(s) == s;
    assert s[1..] == d;
  }

  /** The table entry for "xN" is N. */
  lemma RegisterTable(n: nat)
    requires n < 32
    ensures RegisterNumber("x" + Digits(n, 10)) == Some(n)
  {
    if n < 4 {
      RegisterTable0(n);
    } else if n < 8 {
      RegisterTable4(n);
    } else if n < 12 {
      RegisterTable8(n);
    } else if n < 16 {
      RegisterTable12(n);
    } else if n < 20 {
      RegisterTable16(n);
    } else if n < 24 {
      RegisterTable20(n);
    } else if n < 28 {
      RegisterTable24(n);
    } else {
      RegisterTable28(n);
    }
  }

  lemma RegisterTable0(n: nat)
    requires 0 <= n < 4
    ensures RegisterNumber("x" + Digits(n, 10)) == Some(n)
  {
    if n == 0 {
      assert Digits(0, 10) == "0" && "x" + "0" == "x0";
    } else if n == 1 {
      assert Digits(1, 10) == "1" && "x" + "1" == "x1";
    } else if n == 2 {
      assert Digits(2, 10) == "2" && "x" + "2" == "x2";
    } else {
      assert Digits(3, 10) == "3" && "x" + "3" == "x3";
    }
  }

  lemma RegisterTable4(n: nat)
    requires 4 <= n < 8
    ensures RegisterNumber("x" + Digits(n, 10)) == Some(n)
  {
    if n == 4 {
      assert Digits(4, 10) == "4" && "x" + "4" == "x4";
    } else if n == 5 {
      assert Digits(5, 10) == "5" && "x" + "5" == "x5";
    } else if n == 6 {
      assert Digits(6, 10) == "6" && "x" + "6" == "x6";
    } else {
      assert Digits(7, 10) == "7" && "x" + "7" == "x7";
    }
  }

  lemma RegisterTable8(n: nat)
    requires 8 <= n < 12
    ensures RegisterNumber("x" + Digits(n, 10)) == Some(n)
  {
    if n == 8 {
      assert Digits(8, 10) == "8" && "x" + "8" == "x8";
    } else if n == 9 {
      assert Digits(9, 10) == "9" && "x" + "9" == "x9";
    } else if n == 10 {
      assert Digits(10, 10) == "10" && "x" + "10" == "x10";
    } else {
      assert Digits(11, 10) == "11" && "x" + "11" == "x11";
    }
  }

  lemma RegisterTable12(n: nat)
    requires 12 <= n < 16
    ensures RegisterNumber("x" + Digits(n, 10)) == Some(n)
  {
    if n == 12 {
      assert Digits(12, 10) == "12" && "x" + "12" == "x12";
    } else if n == 13 {
      assert Digits(13, 10) == "13" && "x" + "13" == "x13";
    } else if n == 14 {
      assert Digits(14, 10) == "14" && "x" + "14" == "x14";
    } else {
      assert Digits(15, 10) == "15" && "x" + "15" == "x15";
    }
  }

  lemma RegisterTable16(n: nat)
    requires 16 <= n < 20
    ensures RegisterNumber("x" + Digits(n, 10)) == Some(n)
  {
    if n == 16 {
      assert Digits(16, 10) == "16" && "x" + "16" == "x16";
    } else if n == 17 {
      assert Digits(17, 10) == "17" && "x" + "17" == "x17";
    } else if n == 18 {
      assert Digits(18, 10) == "18" && "x" + "18" == "x18";
    } else {
      assert Digits(19, 10) == "19" && "x" + "19" == "x19";
    }
  }

  lemma RegisterTable20(n: nat)
    requires 20 <= n < 24
    ensures RegisterNumber("x" + Digits(n, 10)) == Some(n)
  {
    if n == 20 {
      assert Digits(20, 10) == "20" && "x" + "20" == "x20";
    } else if n == 21 {
      assert Digits(21, 10) == "21" && "x" + "21" == "x21";
    } else if n == 22 {
      assert Digits(22, 10) == "22" && "x" + "22" == "x22";
    } else {
      assert Digits(23, 10) == "23" && "x" + "23" == "x23";
    }
  }

  lemma RegisterTable24(n: nat)
    requires 24 <= n < 28
    ensures RegisterNumber("x" + Digits(n, 10)) == Some(n)
  {
    if n == 24 {
      assert Digits(24, 10) == "24" && "x" + "24" == "x24";
    } else if n == 25 {
      assert Digits(25, 10) == "25" && "x" + "25" == "x25";
    } else if n == 26 {
      assert Digits(26, 10) == "26" && "x" + "26" == "x26";
    } else {
      assert Digits(27, 10) == "27" && "x" + "27" == "x27";
    }
  }

  lemma RegisterTable28(n: nat)
    requires 28 <= n < 32
    ensures RegisterNumber("x" + Digits(n, 10)) == Some(n)
  {
    if n == 28 {
      assert Digits(28, 10) == "28" && "x" + "28" == "x28";
    } else if n == 29 {
      assert Digits(29, 10) == "29" && "x" + "29" == "x29";
    } else if n == 30 {
      assert Digits(30, 10) == "30" && "x" + "30" == "x30";
    } else {
      assert Digits(31, 10) == "31" && "x" + "31" == "x31";
    }
  }

  // ---------------------------------------------------------------------
  // Facts about printed digits

  lemma DigitFacts(d: nat)
    requires d < 16
    ensures IsHexDigit(DigitChar(d)) && HexDigitValue(DigitChar(d)) == d
    ensures d < 10 ==> IsDigit(DigitChar(d))
    ensures !IsSpace(DigitChar(d)) && LowerChar(DigitChar(d)) == DigitChar(d)
  {
  }

  /** The characters Python prints for digits: hexadecimal digits, decimal ones below base 11, lower case, no blanks. */
  predicate DigitText(s: string, base: nat) {
    forall i :: 0 <= i < |s| ==>
      IsHexDigit(s[i]) && (base <= 10 ==> IsDigit(s[i])) && !IsSpace(s[i]) && LowerChar(s[i]) == s[i]
  }

  lemma {:induction false} DigitsText(n: nat, base: nat)
    requires 2 <= base <= 16
    ensures DigitText(Digits(n, base), base)
  {
    var r := n % base;
    DivModSplit(n, base);
    DigitFacts(r);
    if n >= base {
      DivShrinks(n, base);
      DigitsText(n / base, base);
      assert Digits(n, base) == Digits(n / base, base) + [DigitChar(r)];
    } else {
      ModSmall(n, base);
    }
  }

  lemma {:induction false} DigitsValue(n: nat, base: nat)
    requires 2 <= base <= 16
    ensures AllHexDigits(Digits(n, base))
    ensures NumeralValue(Digits(n, base), base) == n
  {
    var d := Digits(n, base);
    DigitsText(n, base);
    var r := n % base;
    DivModSplit(n, base);
    DigitFacts(r);
    if n >= base {
      var q := n / base;
      DivShrinks(n, base);
      DigitsValue(q, base);
      assert d[..|d| - 1] == Digits(q, base);
      var v := NumeralValue(Digits(q, base), base);
      assert v == q;
      assert NumeralValue(d, base) == q * base + r;
    } else {
      ModSmall(n, base);
      assert d[..0] == [];
      assert NumeralValue(d[..0], base) == 0;
    }
  }
}
