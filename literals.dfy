// The literal conversions of src/number.rs: `from_str`, which reads a
// digit string in a radix into a register of rounded width, `from_char`,
// which stores a character's code point, and `to_string`, which prints a
// register in radix 2, 8, 10 or 16.
module Literals {
  import opened Bits
  import opened Results
  import opened Numbers

  // ---------------------------------------------------------------------
  // Digits
  // ---------------------------------------------------------------------

  /** The digit a character stands for: '0'..'9', then 'a'..'z' and 'A'..'Z' from 10 up. */
  function DigitOf(c: char): Option<nat>
  {
    if '0' <= c <= '9' then Some(c as int - '0' as int)
    else if 'a' <= c <= 'z' then Some(c as int - 'a' as int + 10)
    else if 'A' <= c <= 'Z' then Some(c as int - 'A' as int + 10)
    else None
  }

  /** c is a digit of the radix. */
  predicate IsDigitIn(c: char, radix: nat)
  {
    DigitOf(c).Some? && DigitOf(c).value < radix
  }

  predicate AllDigits(cs: string, radix: nat)
  {
    forall i :: 0 <= i < |cs| ==> IsDigitIn(cs[i], radix)
  }

  /** The message `from_str` gives for a character that is not a digit of the radix. */
  function DigitError(c: char, radix: nat): string
  {
    if DigitOf(c).None? then
      "letter " + [c] + " cannot represent a digit"
    else
      "Letter '" + [c] + "' cannot be used for number notation in base " + Decimal(radix)
  }

  /**
   * One turn of the `from_str` loop on the u128 accumulator: the digit is
   * appended, and `buffer *= radix; buffer += n` panics when the u128
   * overflows.
   */
  function DigitStep(acc: nat, c: char, radix: nat): Result<nat>
  {
    if !IsDigitIn(c, radix) then
      Err(DigitError(c, radix))
    else
      var next := Append(acc, radix, DigitOf(c).value);
      if next >= Pow2(128) then Panic else Ok(next)
  }

  /** The accumulator with one more digit d on the right. */
  function Append(acc: nat, radix: nat, d: nat): nat
  {
    acc * radix + d
  }

  /** The `from_str` loop from accumulator acc over the characters cs. */
  function ParseFrom(acc: nat, cs: string, radix: nat): Result<nat>
    decreases |cs|
  {
    if |cs| == 0 then
      Ok(acc)
    else
      match DigitStep(acc, cs[0], radix)
      case Ok(a) => ParseFrom(a, cs[1..], radix)
      case Err(m) => Err(m)
      case Panic => Panic
  }

  /** The positional value of a digit string, most significant digit first. */
  function DigitsValue(cs: string, radix: nat): nat
    requires AllDigits(cs, radix)
    decreases |cs|
  {
    if |cs| == 0 then 0
    else Append(DigitsValue(cs[..|cs| - 1], radix), radix, DigitOf(cs[|cs| - 1]).value)
  }

  /** A digit string keeps at least the value of its leading digits. */
  lemma {:induction false} DigitsValueGrows(p: string, cs: string, radix: nat)
    requires radix >= 1 && AllDigits(p + cs, radix)
    ensures AllDigits(p, radix) && DigitsValue(p, radix) <= DigitsValue(p + cs, radix)
    decreases |cs|
  {
    assert forall i :: 0 <= i < |p| ==> p[i] == (p + cs)[i];
    if |cs| == 0 {
      assert p + cs == p;
    } else {
      var whole := p + cs;
      var q := p + cs[..|cs| - 1];
      assert whole[..|whole| - 1] == q;
      assert AllDigits(q, radix) by {
        assert forall i :: 0 <= i < |q| ==> q[i] == whole[i];
      }
      DigitsValueGrows(p, cs[..|cs| - 1], radix);
      var d := DigitOf(whole[|whole| - 1]).value;
      assert DigitsValue(whole, radix) == Append(DigitsValue(q, radix), radix, d);
      AppendGrows(DigitsValue(q, radix), radix, d);
    }
  }

  lemma AppendGrows(acc: nat, radix: nat, d: nat)
    requires radix >= 1
    ensures acc <= Append(acc, radix, d)
  {
    MulLe(acc, 1, radix);
  }

  /**
   * Reading cs after a prefix p already read: the loop succeeds exactly
   * when every character is a digit of the radix and the whole value fits
   * a u128, and it then yields the value of p + cs.
   */
  lemma {:induction false} ParseFromValue(p: string, cs: string, radix: nat)
    requires AllDigits(p, radix) && DigitsValue(p, radix) < Pow2(128)
    ensures ParseFrom(DigitsValue(p, radix), cs, radix).Ok?
        <==> AllDigits(p + cs, radix) && DigitsValue(p + cs, radix) < Pow2(128)
    ensures ParseFrom(DigitsValue(p, radix), cs, radix).Ok?
        ==> ParseFrom(DigitsValue(p, radix), cs, radix).value == DigitsValue(p + cs, radix)
    decreases |cs|
  {
    if |cs| == 0 {
      assert p + cs == p;
    } else {
      var c := cs[0];
      var q := p + [c];
      assert q + cs[1..] == p + cs;
      assert (p + cs)[|p|] == c;
      if IsDigitIn(c, radix) {
        assert AllDigits(q, radix);
        assert q[..|q| - 1] == p;
        var v := DigitsValue(q, radix);
        if v < Pow2(128) {
          ParseFromValue(q, cs[1..], radix);
        } else if AllDigits(p + cs, radix) {
          DigitsValueGrows(q, cs[1..], radix);
        }
      }
    }
  }

  /** Every accumulator the loop yields fits a u128. */
  lemma {:induction false} ParseFromBound(acc: nat, cs: string, radix: nat)
    requires acc < Pow2(128)
    ensures ParseFrom(acc, cs, radix).Ok? ==> ParseFrom(acc, cs, radix).value < Pow2(128)
    decreases |cs|
  {
    if |cs| > 0 && DigitStep(acc, cs[0], radix).Ok? {
      ParseFromBound(DigitStep(acc, cs[0], radix).value, cs[1..], radix);
    }
  }

  /**
   * The digits of a string: the `from_str` loop over them from zero
   * succeeds exactly when they are all digits of the radix with a value
   * below 2^128, and yields that value.
   */
  lemma ParseDigitsMeaning(cs: string, radix: nat)
    ensures ParseFrom(0, cs, radix).Ok? <==> AllDigits(cs, radix) && DigitsValue(cs, radix) < Pow2(128)
    ensures ParseFrom(0, cs, radix).Ok? ==> ParseFrom(0, cs, radix).value == DigitsValue(cs, radix)
  {
    assert [] + cs == cs;
    ParseFromValue([], cs, radix);
  }

  /**
   * When the digits before position i fit a u128 and cs[i] is the first
   * character that is not a digit of the radix, the loop reports that
   * character.
   */
  lemma ParseDigitsError(cs: string, radix: nat, i: nat)
    requires i < |cs| && AllDigits(cs[..i], radix) && DigitsValue(cs[..i], radix) < Pow2(128)
    requires !IsDigitIn(cs[i], radix)
    ensures ParseFrom(0, cs, radix) == Err(DigitError(cs[i], radix))
  {
    assert [] + cs[..i] == cs[..i];
    ParseFromValue([], cs[..i], radix);
    ParseFromRest(0, cs[..i], cs[i..], radix);
    assert cs[..i] + cs[i..] == cs;
  }

  /** The loop over p + rest is the loop over p, continued over rest. */
  lemma {:induction false} ParseFromRest(acc: nat, p: string, rest: string, radix: nat)
    requires ParseFrom(acc, p, radix).Ok?
    ensures ParseFrom(acc, p + rest, radix) == ParseFrom(ParseFrom(acc, p, radix).value, rest, radix)
    decreases |p|
  {
    if |p| > 0 {
      assert (p + rest)[0] == p[0];
      assert (p + rest)[1..] == p[1..] + rest;
      ParseFromRest(DigitStep(acc, p[0], radix).value, p[1..], rest, radix);
    } else {
      assert p + rest == rest;
    }
  }

  /** The loop propagates the first error or panic of any prefix. */
  lemma {:induction false} ParseFromStops(acc: nat, p: string, rest: string, radix: nat)
    requires !ParseFrom(acc, p, radix).Ok?
    ensures ParseFrom(acc, p + rest, radix) == ParseFrom(acc, p, radix)
    decreases |p|
  {
    assert |p| > 0;
    assert (p + rest)[0] == p[0];
    assert (p + rest)[1..] == p[1..] + rest;
    if DigitStep(acc, p[0], radix).Ok? {
      ParseFromStops(DigitStep(acc, p[0], radix).value, p[1..], rest, radix);
    }
  }

  // ---------------------------------------------------------------------
  // from_str
  // ---------------------------------------------------------------------

  /** The characters `from_str` reads as digits: everything after a leading '-'. */
  function LiteralDigits(literal: string): string
  {
    if |literal| > 0 && literal[0] == '-' then literal[1..] else literal
  }

  /**
   * `Number::from_str(literal, radix)`: the digits after an optional '-'
   * are read into a u128, and the register is built from their value.
   */
  function ParsedNumber(literal: string, radix: nat): Result<NumberState>
  {
    match ParseFrom(0, LiteralDigits(literal), radix)
    case Err(m) => Err(m)
    case Panic => Panic
    case Ok(b) =>
      ParseFromBound(0, LiteralDigits(literal), radix);
      LiteralRegister(b, |literal| > 0 && literal[0] == '-', '.' in literal)
  }

  /**
   * The register `from_str` builds from the digits' value b: the width is
   * the rounded number of significant bits, a negative nonzero value is
   * replaced by its two's complement (`!buffer + 1`), the buffer is masked
   * to the width, and a literal containing '.' would be a Float.
   */
  function LiteralRegister(b: nat, negative: bool, dotted: bool): Result<NumberState>
    requires b < Pow2(128)
  {
    LiteralWidth(b);
    var width := NextPowerOfTwoRoundedUp(BitLength(b));
    if width.Err? then
      Err(width.msg)
    else
      Ok(NumberState(And(Magnitude(b, negative), MaskNOnesFromRight(width.value)), width.value,
                     if dotted then Float else Integer, negative, false))
  }

  /** The u128 `from_str` masks: b, or `!b + 1` for a negative nonzero value. */
  function Magnitude(b: nat, negative: bool): nat
    requires b < Pow2(128)
  {
    if negative && b != 0 then Not128(b) + 1 else b
  }

  /** The rounded width of a u128 value is at most 128 and holds the value. */
  lemma LiteralWidth(b: nat)
    requires b < Pow2(128)
    ensures NextPowerOfTwoRoundedUp(BitLength(b)).Ok?
    ensures var len := NextPowerOfTwoRoundedUp(BitLength(b)).value;
      8 <= len <= 128 && b < Pow2(len) && len == LeastWidth(b)
  {
    LeastWidthValue(b);
    BitLengthBounds(b);
    BitLengthLe(b, 128);
    Pow2Le(BitLength(b), LeastWidth(b));
  }

  /** The least of 8, 16, 32, 64, 128 whose bits hold b. */
  function LeastWidth(b: nat): (w: nat)
    ensures 8 <= w <= 128
    ensures BitLength(b) <= 128 ==> BitLength(b) <= w
  {
    if BitLength(b) <= 8 then 8
    else if BitLength(b) <= 16 then 16
    else if BitLength(b) <= 32 then 32
    else if BitLength(b) <= 64 then 64
    else 128
  }

  lemma LeastWidthValue(b: nat)
    requires b < Pow2(128)
    ensures NextPowerOfTwoRoundedUp(BitLength(b)) == Ok(LeastWidth(b))
  {
    var k := BitLength(b);
    BitLengthLe(b, 128);
    Pow2Small();
    if k == 0 {
      NextPowerOfTwoRoundedUpValue(0);
    } else if k <= 8 {
      RoundedWidth(k, 3);
    } else if k <= 16 {
      RoundedWidth(k, 4);
    } else if k <= 32 {
      RoundedWidth(k, 5);
    } else if k <= 64 {
      RoundedWidth(k, 6);
    } else {
      RoundedWidth(k, 7);
    }
  }

  /** A bit count in (2^(j-1), 2^j], or in [1, 8] for j = 3, rounds up to 2^j. */
  lemma RoundedWidth(k: nat, j: nat)
    requires 3 <= j <= 7 && 1 <= k <= Pow2(j)
    requires j > 3 ==> Pow2(j - 1) < k
    ensures NextPowerOfTwoRoundedUp(k) == Ok(Pow2(j))
  {
    Pow2Le(j, 7);
    Pow2Small();
    NextPowerOfTwoRoundedUpValue(k);
    if j == 3 {
      BitLengthLe(k - 1, 3);
    } else {
      BitLengthExact(k - 1, j);
    }
  }

  /**
   * A successful `from_str`: the digits' value b is below 2^128, the width
   * is the least of 8, 16, 32, 64 and 128 that holds b, the register is
   * signed exactly when the literal starts with '-', and the buffer is b,
   * or for a negative literal the two's complement of b within the width,
   * so that buffer + b is a multiple of 2^width. A '.' can never reach the
   * number type, because it is not a digit.
   */
  lemma ParsedNumberValue(literal: string, radix: nat)
    requires ParsedNumber(literal, radix).Ok?
    ensures var digits := LiteralDigits(literal);
      AllDigits(digits, radix) && DigitsValue(digits, radix) < Pow2(128)
      && ParsedNumber(literal, radix)
         == LiteralRegister(DigitsValue(digits, radix), |literal| > 0 && literal[0] == '-', false)
  {
    var digits := LiteralDigits(literal);
    ParseDigitsMeaning(digits, radix);
    NoDotInDigits(literal, radix);
  }

  /** A literal whose digits are all digits of a radix holds no '.'. */
  lemma NoDotInDigits(literal: string, radix: nat)
    requires AllDigits(LiteralDigits(literal), radix)
    ensures '.' !in literal
  {
    var digits := LiteralDigits(literal);
    forall i | 0 <= i < |literal|
      ensures literal[i] != '.'
    {
      if |literal| > 0 && literal[0] == '-' {
        if i > 0 {
          assert literal[i] == digits[i - 1];
        }
      } else {
        assert literal[i] == digits[i];
      }
    }
  }

  /**
   * The register built from a u128 value b is valid and not carrying; its
   * width is the least of 8, 16, 32, 64 and 128 that holds b; it is signed
   * exactly when negative; and its buffer is b, or when negative the two's
   * complement of b within the width.
   */
  lemma LiteralRegisterValue(b: nat, negative: bool)
    requires b < Pow2(128)
    ensures b < Pow2(LeastWidth(b))
    ensures LiteralRegister(b, negative, false)
         == Ok(NumberState(if negative then TwosComplement(b, LeastWidth(b)) else b,
                           LeastWidth(b), Integer, negative, false))
    ensures LiteralRegister(b, negative, false).value.Valid()
  {
    LiteralWidth(b);
    var len := LeastWidth(b);
    Pow2Le(len, 128);
    var m := And(Magnitude(b, negative), MaskNOnesFromRight(len));
    assert LiteralRegister(b, negative, false) == Ok(NumberState(m, len, Integer, negative, false));
    MaskedMagnitude(b, negative, len, m);
  }

  /** The two's complement of b in len bits: 2^len - b, and 0 for 0. */
  function TwosComplement(b: nat, len: nat): (c: nat)
    requires b < Pow2(len)
    ensures c < Pow2(len)
  {
    if b == 0 then 0 else Pow2(len) - b
  }

  /** b and its two's complement add up to a multiple of 2^len: the complement is -b in len bits. */
  lemma TwosComplementCancels(b: nat, len: nat)
    requires b < Pow2(len)
    ensures (TwosComplement(b, len) + b) % Pow2(len) == 0
  {
    if b == 0 {
      ModLess(0, Pow2(len));
    } else {
      DivModUnique(Pow2(len), Pow2(len), 1, 0);
    }
  }

  /** The magnitude masked to a width len that holds b. */
  lemma MaskedMagnitude(b: nat, negative: bool, len: nat, m: nat)
    requires b < Pow2(len) && 8 <= len <= 128 && b < Pow2(128)
    requires m == And(Magnitude(b, negative), MaskNOnesFromRight(len))
    ensures m == if negative then TwosComplement(b, len) else b
  {
    AndLowMask(Magnitude(b, negative), len);
    if !negative {
      ModLess(b, Pow2(len));
    } else if b == 0 {
      ModLess(0, Pow2(len));
      assert m == TwosComplement(b, len);
    } else {
      ComplementMod(b, len, 128, Magnitude(b, negative));
      assert m == TwosComplement(b, len);
    }
  }

  /** 2^n - b, for 0 < b < 2^len and len <= n, is 2^len - b modulo 2^len. */
  lemma ComplementMod(b: nat, len: nat, n: nat, x: nat)
    requires 0 < b < Pow2(len) && len <= n && x == Pow2(n) - b
    ensures x % Pow2(len) == Pow2(len) - b
  {
    Pow2Sub(len, n);
    ComplementAlgebra(Pow2(n), Pow2(len), Pow2(n - len), b);
  }

  /** For P a multiple of p and 0 < b < p, P - b is p - b modulo p. */
  lemma ComplementAlgebra(bigP: int, p: int, q: int, b: int)
    requires bigP == p * q && q >= 1 && 0 < b < p
    ensures (bigP - b) % p == p - b
  {
    assert bigP - b == (q - 1) * p + (p - b);
    DivModUnique(bigP - b, p, q - 1, p - b);
  }

  /** A literal whose digits read as b is the register built from b. */
  lemma ReadLiteral(literal: string, radix: nat, b: nat)
    requires ParseFrom(0, LiteralDigits(literal), radix) == Ok(b) && '.' !in literal
    ensures b < Pow2(128)
    ensures ParsedNumber(literal, radix) == LiteralRegister(b, |literal| > 0 && literal[0] == '-', false)
  {
    ParseFromBound(0, LiteralDigits(literal), radix);
  }

  /** A digit of the radix that keeps the accumulator within a u128 is appended. */
  lemma DigitStepOk(acc: nat, c: char, radix: nat)
    requires IsDigitIn(c, radix) && Append(acc, radix, DigitOf(c).value) < Pow2(128)
    ensures DigitStep(acc, c, radix) == Ok(Append(acc, radix, DigitOf(c).value))
  {
  }

  /** A value below 2^8 gives a register eight bits wide. */
  lemma ByteRegister(b: nat, negative: bool)
    requires b < 256
    ensures LiteralRegister(b, negative, false)
         == Ok(NumberState(if negative && b != 0 then 256 - b else b, 8, Integer, negative, false))
  {
    Pow2Small();
    BitLengthLe(b, 8);
    assert LeastWidth(b) == 8;
    LiteralRegisterValue(b, negative);
    assert (if negative then TwosComplement(b, 8) else b) == (if negative && b != 0 then 256 - b else b);
  }

  /** A value in [2^8, 2^16) gives an unsigned register sixteen bits wide. */
  lemma WordRegister(b: nat)
    requires 256 <= b < 65536
    ensures LiteralRegister(b, false, false) == Ok(NumberState(b, 16, Integer, false, false))
  {
    Pow2Small();
    Pow2Words();
    BitLengthLe(b, 16);
    BitLengthBounds(b);
    if BitLength(b) <= 8 {
      Pow2Le(BitLength(b), 8);
    }
    assert LeastWidth(b) == 16;
    LiteralRegisterValue(b, false);
  }

  /** "-1" is all ones in eight bits. */
  lemma MinusOneLiteral()
    ensures ParsedNumber("-1", 10) == Ok(NumberState(0xFF, 8, Integer, true, false))
  {
    Pow2Words();
    assert LiteralDigits("-1") == "1";
    DigitStepOk(0, '1', 10);
    assert "1"[1..] == "";
    ReadLiteral("-1", 10, 1);
    ByteRegister(1, true);
  }

  /** "0" is zero in eight bits. */
  lemma ZeroLiteral()
    ensures ParsedNumber("0", 10) == Ok(NumberState(0, 8, Integer, false, false))
  {
    Pow2Words();
    assert LiteralDigits("0") == "0";
    DigitStepOk(0, '0', 10);
    assert "0"[1..] == "";
    ReadLiteral("0", 10, 0);
    ByteRegister(0, false);
  }

  /** "1" is one in eight bits. */
  lemma OneLiteral()
    ensures ParsedNumber("1", 10) == Ok(NumberState(1, 8, Integer, false, false))
  {
    Pow2Words();
    assert LiteralDigits("1") == "1";
    DigitStepOk(0, '1', 10);
    assert "1"[1..] == "";
    ReadLiteral("1", 10, 1);
    ByteRegister(1, false);
  }

  /** "-0" is zero in eight bits, still flagged signed. */
  lemma MinusZeroLiteral()
    ensures ParsedNumber("-0", 10) == Ok(NumberState(0, 8, Integer, true, false))
  {
    Pow2Words();
    assert LiteralDigits("-0") == "0";
    DigitStepOk(0, '0', 10);
    assert "0"[1..] == "";
    ReadLiteral("-0", 10, 0);
    ByteRegister(0, true);
  }

  /** "1111" in radix 8 is 585, sixteen bits wide. */
  lemma OctalLiteral()
    ensures ParsedNumber("1111", 8) == Ok(NumberState(585, 16, Integer, false, false))
  {
    Pow2Words();
    DigitStepOk(0, '1', 8);
    DigitStepOk(1, '1', 8);
    DigitStepOk(9, '1', 8);
    DigitStepOk(73, '1', 8);
    assert "1111"[1..] == "111" && "111"[1..] == "11" && "11"[1..] == "1" && "1"[1..] == "";
    ReadLiteral("1111", 8, 585);
    WordRegister(585);
  }

  /** "AF" in radix 16 is 175, eight bits wide. */
  lemma HexLiteral()
    ensures ParsedNumber("AF", 16) == Ok(NumberState(175, 8, Integer, false, false))
  {
    Pow2Words();
    DigitStepOk(0, 'A', 16);
    DigitStepOk(10, 'F', 16);
    assert "AF"[1..] == "F" && "F"[1..] == "";
    ReadLiteral("AF", 16, 175);
    ByteRegister(175, false);
  }

  // ---------------------------------------------------------------------
  // from_char
  // ---------------------------------------------------------------------

  /** `char::len_utf8`: the bytes UTF-8 needs for the code point. */
  function Utf8Length(c: char): (n: nat)
    ensures 1 <= n <= 4
  {
    if c as int < 0x80 then 1
    else if c as int < 0x800 then 2
    else if c as int < 0x1_0000 then 3
    else 4
  }

  /** The code-point bits a UTF-8 sequence of n bytes carries. */
  function PayloadBits(n: nat): nat
    requires 1 <= n <= 4
  {
    if n == 1 then 7 else 5 * n + 1
  }

  /** `Number::from_char(c)`: the code point in a register one byte wide per UTF-8 byte. */
  function FromChar(c: char): Result<NumberState>
  {
    Ok(NumberState(c as int, 8 * Utf8Length(c), Integer, false, false))
  }

  /**
   * `from_char` stores the code point unsigned, in a register of 8, 16, 24
   * or 32 bits that holds it; the UTF-8 length is the fewest bytes whose
   * payload holds the code point.
   */
  lemma FromCharValue(c: char)
    ensures var t := FromChar(c).value;
      t.Valid() && t.buffer == c as int && t.buffer < Pow2(t.effectiveBits)
      && !t.isSigned && !t.carry && t.numberType == Integer
    ensures c as int < Pow2(PayloadBits(Utf8Length(c)))
    ensures Utf8Length(c) > 1 ==> Pow2(PayloadBits(Utf8Length(c) - 1)) <= c as int
  {
    Pow2Small();
    Pow2Words();
    assert Pow2(24) == 0x100_0000 by { Pow2Add(16, 8); }
    assert Pow2(11) == 0x800 by { Pow2Add(8, 3); }
    assert Pow2(21) == 0x20_0000 by { Pow2Add(16, 5); }
    Pow2Le(32, 128);
  }

  /** 'a' is 0x61 in eight bits, 'λ' 0x3BB in sixteen and '心' 0x5FC3 in twenty-four. */
  lemma FromCharExamples()
    ensures FromChar('a') == Ok(NumberState(0x61, 8, Integer, false, false))
    ensures FromChar('λ') == Ok(NumberState(0x3BB, 16, Integer, false, false))
    ensures FromChar('心') == Ok(NumberState(0x5FC3, 24, Integer, false, false))
  {
  }

  // ---------------------------------------------------------------------
  // to_string
  // ---------------------------------------------------------------------

  /** The radixes `to_string` formats; any other panics. */
  predicate PrintableRadix(radix: nat)
  {
    radix == 2 || radix == 8 || radix == 10 || radix == 16
  }

  function RadixPrefix(radix: nat): string
    requires PrintableRadix(radix)
  {
    if radix == 2 then "0b" else if radix == 8 then "0o" else if radix == 10 then "0d" else "0x"
  }

  /**
   * The number `to_string` prints: the buffer, or for a negative register
   * `!(buffer - 1) & mask_n_ones_from_right(effective_bits - 1)`.
   */
  function PrintedMagnitude(s: NumberState): nat
    requires s.Valid() && SignReadable(s)
  {
    if IsNegative(s) then
      NegativeIsNonzero(s);
      And(Not128(s.buffer - 1), MaskNOnesFromRight(s.effectiveBits - 1))
    else
      s.buffer
  }

  lemma NegativeIsNonzero(s: NumberState)
    requires s.Valid() && SignReadable(s)
    ensures IsNegative(s) ==> s.buffer >= 1
  {
    if IsNegative(s) {
      BitwiseZeroLeft(AndOp, MaskNthBit(s.effectiveBits - 1));
    }
  }

  /**
   * `to_string(radix, with_prefix)`: a '-' for a negative register, the
   * prefix when asked for, then the digits of the printed magnitude.
   */
  function ToString(s: NumberState, radix: nat, withPrefix: bool): string
    requires s.Valid() && SignReadable(s) && PrintableRadix(radix)
  {
    (if IsNegative(s) then "-" else "")
    + (if withPrefix then RadixPrefix(radix) else "")
    + RadixDigits(PrintedMagnitude(s), radix)
  }

  /**
   * For a negative register whose buffer fits its width, the printed
   * magnitude is 2^w - buffer reduced to w - 1 bits.
   */
  lemma PrintedMagnitudeValue(s: NumberState)
    requires s.Valid() && SignReadable(s) && IsNegative(s) && s.buffer < Pow2(s.effectiveBits)
    ensures PrintedMagnitude(s) == (Pow2(s.effectiveBits) - s.buffer) % Pow2(s.effectiveBits - 1)
  {
    var eb := s.effectiveBits;
    NegativeIsNonzero(s);
    var m := And(Not128(s.buffer - 1), MaskNOnesFromRight(eb - 1));
    assert PrintedMagnitude(s) == m;
    AndLowMask(Not128(s.buffer - 1), eb - 1);
    ReduceHigh(s.buffer, eb, 128, Not128(s.buffer - 1));
  }

  /** 2^n - y and 2^k - y agree modulo 2^(k-1) when 1 <= k <= n. */
  lemma ReduceHigh(y: nat, k: nat, n: nat, x: int)
    requires 1 <= k <= n && y <= Pow2(k) && x == Pow2(n) - y
    ensures x % Pow2(k - 1) == (Pow2(k) - y) % Pow2(k - 1)
  {
    Pow2Sub(k - 1, n);
    Pow2Sub(k - 1, k);
    assert Pow2(1) == 2;
    Pow2Le(1, n - (k - 1));
    ReduceAlgebra(x, y, Pow2(n), Pow2(k), Pow2(k - 1), Pow2(n - (k - 1)));
  }

  lemma ReduceAlgebra(x: int, y: int, bigN: int, big: int, p: int, q: int)
    requires p > 0 && q >= 2 && bigN == p * q && big == p * 2 && x == bigN - y
    ensures x % p == (big - y) % p
  {
    assert x == (big - y) + (q - 2) * p;
    ReduceBy(x, big - y, p, q - 2);
  }

  /** Removing multiples of p does not change the remainder modulo p. */
  lemma ReduceBy(x: int, y: int, p: int, k: int)
    requires p > 0 && x == y + k * p
    ensures x % p == y % p
  {
    DivModUnique(x, p, y / p + k, y % p);
  }

  /** The digits of v in the radix read back as v. */
  lemma {:induction false} RadixDigitsRoundTrip(v: nat, radix: nat)
    requires 2 <= radix <= 16
    ensures AllDigits(RadixDigits(v, radix), radix) && DigitsValue(RadixDigits(v, radix), radix) == v
    decreases v
  {
    var s := RadixDigits(v, radix);
    if v < radix {
      assert s == [] + [DigitChar(v)];
      LastDigit([], v, radix);
    } else {
      var p := RadixDigits(v / radix, radix);
      DivLess(v, radix);
      RadixDigitsRoundTrip(v / radix, radix);
      assert s == p + [DigitChar(v % radix)];
      LastDigit(p, v % radix, radix);
      AppendDivMod(v, radix);
    }
  }

  /** A number is its quotient by the radix with its last digit appended. */
  lemma AppendDivMod(v: nat, radix: nat)
    requires radix >= 1
    ensures Append(v / radix, radix, v % radix) == v
  {
    DivModSplit(v, radix);
  }

  /** Writing one more digit d multiplies the value by the radix and adds d. */
  lemma LastDigit(p: string, d: nat, radix: nat)
    requires d < radix <= 16 && AllDigits(p, radix)
    ensures AllDigits(p + [DigitChar(d)], radix)
    ensures DigitsValue(p + [DigitChar(d)], radix) == Append(DigitsValue(p, radix), radix, d)
  {
    var s := p + [DigitChar(d)];
    DigitCharValue(d, radix);
    assert s[..|s| - 1] == p;
    assert AllDigits(s, radix) by {
      forall i | 0 <= i < |s|
        ensures IsDigitIn(s[i], radix)
      {
        if i < |p| {
          assert s[i] == p[i];
        }
      }
    }
  }

  /** Dividing a positive number by a radix of at least 2 makes it smaller. */
  lemma DivLess(v: nat, radix: nat)
    requires v >= 1 && radix >= 2
    ensures v / radix < v
  {
    DivModSplit(v, radix);
    var q := v / radix;
    MulLe(q, 2, radix);
  }

  lemma DigitCharValue(d: nat, radix: nat)
    requires d < radix <= 16
    ensures IsDigitIn(DigitChar(d), radix) && DigitOf(DigitChar(d)).value == d
  {
  }

  /**
   * An unsigned register prints as the prefix and the digits of its
   * buffer, and reading those digits back gives the buffer.
   */
  lemma UnsignedPrintsBuffer(s: NumberState, radix: nat, withPrefix: bool)
    requires s.Valid() && !s.isSigned && PrintableRadix(radix)
    ensures ToString(s, radix, withPrefix)
         == (if withPrefix then RadixPrefix(radix) else "") + RadixDigits(s.buffer, radix)
    ensures ParseFrom(0, RadixDigits(s.buffer, radix), radix) == Ok(s.buffer)
  {
    RadixDigitsRoundTrip(s.buffer, radix);
    ParseDigitsMeaning(RadixDigits(s.buffer, radix), radix);
  }

  /**
   * A digit string without leading zeros, read by `from_str` and printed
   * with its prefix, reproduces the literal.
   */
  lemma ParsePrintRoundTrip(v: nat, radix: nat)
    requires v < Pow2(128) && PrintableRadix(radix)
    ensures ParsedNumber(RadixDigits(v, radix), radix) == Ok(NumberState(v, LeastWidth(v), Integer, false, false))
    ensures ToString(NumberState(v, LeastWidth(v), Integer, false, false), radix, true)
         == RadixPrefix(radix) + RadixDigits(v, radix)
  {
    var cs := RadixDigits(v, radix);
    RadixDigitsRoundTrip(v, radix);
    ParseDigitsMeaning(cs, radix);
    assert LiteralDigits(cs) == cs by {
      assert IsDigitIn(cs[0], radix);
    }
    NoDotInDigits(cs, radix);
    ReadLiteral(cs, radix, v);
    LiteralRegisterValue(v, false);
    UnsignedPrintsBuffer(NumberState(v, LeastWidth(v), Integer, false, false), radix, true);
  }

  // ---------------------------------------------------------------------
  // Printing the most negative value
  // ---------------------------------------------------------------------

  /**
   * The magnitude as evidently intended: 2^w minus the buffer for a
   * negative register.
   */
  function IntendedMagnitude(s: NumberState): nat
    requires s.Valid() && SignReadable(s)
  {
    if IsNegative(s) then
      Pow2Le(s.effectiveBits, 128);
      ModLess(s.buffer % Pow2(s.effectiveBits), Pow2(s.effectiveBits));
      Pow2(s.effectiveBits) - s.buffer % Pow2(s.effectiveBits)
    else
      s.buffer
  }

  /** `to_string` printing the intended magnitude. */
  function ToStringIntended(s: NumberState, radix: nat, withPrefix: bool): string
    requires s.Valid() && SignReadable(s) && PrintableRadix(radix)
  {
    (if IsNegative(s) then "-" else "")
    + (if withPrefix then RadixPrefix(radix) else "")
    + RadixDigits(IntendedMagnitude(s), radix)
  }

  /**
   * The intended printer writes a signed register whose buffer fits its
   * width as its two's-complement value: the sign, then the digits of the
   * absolute value.
   */
  lemma IntendedPrintsSignedValue(s: NumberState, radix: nat, withPrefix: bool)
    requires s.Valid() && s.isSigned && 1 <= s.effectiveBits && s.buffer < Pow2(s.effectiveBits)
    requires PrintableRadix(radix)
    ensures var v := ToSigned(s.buffer, s.effectiveBits);
      ToStringIntended(s, radix, withPrefix)
        == (if v < 0 then "-" else "") + (if withPrefix then RadixPrefix(radix) else "")
           + RadixDigits(if v < 0 then -v else v, radix)
  {
    IsNegativeMeaning(s);
    ModLess(s.buffer, Pow2(s.effectiveBits));
  }

  /**
   * The two printers differ for a negative register exactly at the most
   * negative value 2^(w-1), where `to_string` prints "-0".
   */
  lemma PrintersAgree(s: NumberState, radix: nat, withPrefix: bool)
    requires s.Valid() && SignReadable(s) && s.buffer < Pow2(s.effectiveBits) && PrintableRadix(radix)
    ensures IsNegative(s) ==> 1 <= s.effectiveBits
    ensures PrintedMagnitude(s) == IntendedMagnitude(s)
        <==> !(IsNegative(s) && s.buffer == Pow2(s.effectiveBits - 1))
    ensures IsNegative(s) && s.buffer == Pow2(s.effectiveBits - 1) ==> PrintedMagnitude(s) == 0
  {
    if IsNegative(s) {
      var eb := s.effectiveBits;
      IsNegativeMeaning(s);
      PrintedMagnitudeValue(s);
      ModLess(s.buffer, Pow2(eb));
      Pow2Sub(eb - 1, eb);
      assert Pow2(1) == 2;
      var m := Pow2(eb) - s.buffer;
      if s.buffer == Pow2(eb - 1) {
        DivModUnique(m, Pow2(eb - 1), 1, 0);
      } else {
        ModLess(m, Pow2(eb - 1));
      }
    }
  }

  /** The signed 8-bit register 0x80, the value -128, prints as "-0". */
  lemma MostNegativePrintsMinusZero()
    ensures var s := NumberState(0x80, 8, Integer, true, false);
      s.Valid() && SignReadable(s) && IsNegative(s) && ToString(s, 10, false) == "-0"
  {
    var s := NumberState(0x80, 8, Integer, true, false);
    Pow2Small();
    Pow2Le(8, 128);
    IsNegativeMeaning(s);
    PrintersAgree(s, 10, false);
    assert RadixDigits(0, 10) == "0";
  }

  /** The intended printer writes the same register as "-128", its two's-complement value. */
  lemma MostNegativeIntended()
    ensures var s := NumberState(0x80, 8, Integer, true, false);
      s.Valid() && SignReadable(s) && ToSigned(s.buffer, 8) == -128
      && ToStringIntended(s, 10, false) == "-128"
  {
    var s := NumberState(0x80, 8, Integer, true, false);
    Pow2Small();
    Pow2Le(8, 128);
    IsNegativeMeaning(s);
    ModLess(0x80, Pow2(8));
    assert IntendedMagnitude(s) == 128;
    DecimalOf128();
  }

  lemma DecimalOf128()
    ensures RadixDigits(128, 10) == "128"
  {
    DivModUnique(128, 10, 12, 8);
    DivModUnique(12, 10, 1, 2);
    assert RadixDigits(12, 10) == "12";
  }
}
