// The register of src/number.rs as an object: a `Number` holds the u128
// buffer, the effective width, the type, the signedness and the carry, and
// its methods update them in place. Every method is proved to leave the
// state that the matching function of the modules Numbers and Literals
// describes; the properties of those functions are proved there.
module Register {
  import opened Bits
  import opened Results
  import opened Numbers
  import Literals

  /**
   * One turn of the `from_str` digit loop: the character becomes a digit
   * that is appended to the u128 accumulator; a character that is not a
   * digit of the radix gives its message, and an overflow of the
   * accumulator panics.
   */
  method ReadDigit(acc: nat, c: char, radix: nat) returns (r: Result<nat>)
    ensures r == Literals.DigitStep(acc, c, radix)
  {
    var n: nat;
    if '0' <= c <= '9' {
      n := c as int - '0' as int;
    } else if 'a' <= c <= 'z' {
      n := c as int - 'a' as int + 10;
    } else if 'A' <= c <= 'Z' {
      n := c as int - 'A' as int + 10;
    } else {
      return Err("letter " + [c] + " cannot represent a digit");
    }
    assert Literals.DigitOf(c) == Some(n);
    if n < radix {
      var next := Literals.Append(acc, radix, n);
      if next >= Pow2(128) {
        return Panic;
      }
      return Ok(next);
    } else {
      return Err("Letter '" + [c] + "' cannot be used for number notation in base " + Decimal(radix));
    }
  }

  /**
   * The `from_str` digit loop over the characters after the sign: it stops
   * at the first character that is not a digit of the radix, or panics on
   * an overflow, and otherwise yields the accumulated value.
   */
  method ReadDigits(digits: string, radix: nat) returns (r: Result<nat>)
    ensures r == Literals.ParseFrom(0, digits, radix)
  {
    var buffer: nat := 0;
    var i := 0;
    while i < |digits|
      invariant i <= |digits|
      invariant Literals.ParseFrom(buffer, digits[i..], radix) == Literals.ParseFrom(0, digits, radix)
    {
      ghost var rest := digits[i..];
      assert rest[0] == digits[i] && rest[1..] == digits[i + 1..];
      var step := ReadDigit(buffer, digits[i], radix);
      match step
      case Err(m) => return Err(m);
      case Panic => return Panic;
      case Ok(next) => buffer := next;
      i := i + 1;
    }
    assert digits[i..] == [];
    return Ok(buffer);
  }

  /** The outcome of a constructor, with the register it built read as a value. */
  function StateOf(r: Result<Number>): Result<NumberState>
    reads if r.Ok? then {r.value} else {}
  {
    match r
    case Ok(n) => Ok(n.State())
    case Err(m) => Err(m)
    case Panic => Panic
  }

  /**
   * The three masking steps of `with_range_do_arithmetics` on the register
   * s: clearing the range with the mask m, or-ing in the closure's result
   * mul masked to the width and shifted up, and cutting the buffer y to the
   * effective bits give the register `AfterArithmetic` describes.
   */
  lemma ArithmeticSteps(s: NumberState, r: BitsRange, op: Arith, bits: nat, mul: nat, m: nat, y: nat)
    requires s.Valid() && RangeOk(s, r) && ArithOk(op, Span(s, r))
    requires bits == Field(s.buffer, Low(s, r), Width(s, r)) && bits < Pow2(128)
    requires mul == Apply(op, bits, Span(s, r))
    requires m == MaskFromBitToBit(High(s, r), Low(s, r))
    requires y == And(Or(And(s.buffer, Not128(m)), Shl(And(mul, MaskNOnesFromRight(Span(s, r))), Low(s, r))),
                      MaskNOnesFromRight(s.effectiveBits))
    ensures AfterArithmetic(s, r, op) == s.(buffer := y, carry := false)
    ensures s.(buffer := y, carry := false).Valid()
  {
    var l, w := Low(s, r), Width(s, r);
    RangeMasks(s, r, mul);
    MaskedWrite(s.buffer, l, w, mul);
    AndLowMask(WithField(s.buffer, l, w, mul), s.effectiveBits);
    ArithmeticInRange(s, r, op);
  }

  /** The string `to_string` assembles: a '-' inserted before the prefix inserted before the digits. */
  lemma Formatted(st: NumberState, radix: nat, withPrefix: bool, digits: string, s: string)
    requires st.Valid() && SignReadable(st) && Literals.PrintableRadix(radix)
    requires digits == RadixDigits(Literals.PrintedMagnitude(st), radix)
    requires var prefixed := if withPrefix then Literals.RadixPrefix(radix) + digits else digits;
      s == if IsNegative(st) then "-" + prefixed else prefixed
    ensures s == Literals.ToString(st, radix, withPrefix)
  {
    var sign: string := if IsNegative(st) then "-" else "";
    var prefix: string := if withPrefix then Literals.RadixPrefix(radix) else "";
    Inserted(sign, prefix, digits, s);
  }

  lemma Inserted(sign: string, prefix: string, digits: string, s: string)
    requires s == sign + (prefix + digits)
    ensures s == sign + prefix + digits
  {
  }

  class Number {
    var buffer: nat
    var effectiveBits: nat
    var numberType: NumberType
    var isSigned: bool
    var carry: bool

    /** The register's fields as a value. */
    function State(): NumberState
      reads this
    {
      NumberState(buffer, effectiveBits, numberType, isSigned, carry)
    }

    /** The buffer is a u128 and the width at most 128 bits. */
    predicate Valid()
      reads this
    {
      State().Valid()
    }

    /** A register holding the fields of s. */
    constructor (s: NumberState)
      ensures State() == s
    {
      buffer := s.buffer;
      effectiveBits := s.effectiveBits;
      numberType := s.numberType;
      isSigned := s.isSigned;
      carry := s.carry;
    }

    /** `Number::new`: a zero register of the rounded width, or the rounding's error. */
    static method New(numberType: NumberType, isSigned: bool, size: nat) returns (r: Result<Number>)
      ensures r.Ok? ==> fresh(r.value)
      ensures StateOf(r) == NewNumber(numberType, isSigned, size)
    {
      var rounded := NextPowerOfTwoRoundedUp(size);
      if rounded.Err? {
        return Err(rounded.msg);
      }
      var n := new Number(NumberState(0, rounded.value, numberType, isSigned, false));
      return Ok(n);
    }

    /** `Number::from_char`: the code point, unsigned, one byte of width per UTF-8 byte. */
    static method FromChar(c: char) returns (r: Result<Number>)
      ensures r.Ok? ==> fresh(r.value)
      ensures StateOf(r) == Literals.FromChar(c)
    {
      var n := new Number(NumberState(c as int, Literals.Utf8Length(c) * 8, Integer, false, false));
      return Ok(n);
    }

    /**
     * `Number::from_str`: the digits after an optional '-' are read, the
     * width is rounded from the significant bits, a negative nonzero value
     * is complemented and incremented, and the buffer is masked to the
     * width.
     */
    static method FromStr(literal: string, radix: nat) returns (r: Result<Number>)
      ensures r.Ok? ==> fresh(r.value)
      ensures StateOf(r) == Literals.ParsedNumber(literal, radix)
    {
      var isNegative := |literal| > 0 && literal[0] == '-';
      var digits := if isNegative then literal[1..] else literal;
      assert digits == Literals.LiteralDigits(literal);
      var parsed := ReadDigits(digits, radix);
      if parsed.Err? {
        return Err(parsed.msg);
      } else if parsed.Panic? {
        return Panic;
      }
      var b := parsed.value;
      Literals.ParseFromBound(0, digits, radix);
      assert Literals.ParsedNumber(literal, radix) == Literals.LiteralRegister(b, isNegative, '.' in literal);
      Literals.LiteralWidth(b);
      // 128 - leading_zeros is the number of significant bits; the rounding
      // of at most 128 bits cannot fail
      var lengthInBits := NextPowerOfTwoRoundedUp(BitLength(b));
      var buffer := b;
      if isNegative && buffer != 0 {
        buffer := Not128(buffer);
        buffer := buffer + 1;
      }
      assert buffer == Literals.Magnitude(b, isNegative);
      var t := NumberState(And(buffer, MaskNOnesFromRight(lengthInBits.value)), lengthInBits.value,
                           if '.' in literal then Float else Integer, isNegative, false);
      assert Literals.LiteralRegister(b, isNegative, '.' in literal) == Ok(t);
      var n := new Number(t);
      return Ok(n);
    }

    /** `resolve_bit_index`. */
    method ResolveBitIndex(bi: BitsIndex) returns (i: nat)
      requires Resolvable(State(), bi)
      ensures i == Numbers.ResolveBitIndex(State(), bi)
    {
      match bi
      case Indexed(k) => i := k;
      case Highest => i := effectiveBits - 1;
      case Lowest => i := 0;
    }

    /** `get_bits`: the bits of the range, shifted down to bit 0. */
    method GetBits(r: BitsRange) returns (v: nat)
      requires RangeOk(State(), r)
      ensures v == Numbers.GetBits(State(), r)
      ensures v == Field(buffer, Low(State(), r), Width(State(), r)) && v < Pow2(Width(State(), r))
      ensures v < Pow2(128)
    {
      var high := ResolveBitIndex(r.high);
      var low := ResolveBitIndex(r.low);
      v := Shr(And(buffer, MaskFromBitToBit(high, low)), low);
      Pow2Le(Width(State(), r), 128);
    }

    /** `set_bits`: the range receives the low bits of the source; nothing else changes. */
    method SetBits(r: BitsRange, source: nat)
      requires Valid() && RangeOk(State(), r)
      modifies this
      ensures State() == WithBitsSet(old(State()), r, source)
      ensures Valid()
    {
      ghost var s := State();
      var high := ResolveBitIndex(r.high);
      var low := ResolveBitIndex(r.low);
      assert high == High(s, r) && low == Low(s, r) && high - low + 1 == Span(s, r);
      RangeMasks(s, r, source);
      MaskedWrite(buffer, low, Width(s, r), source);
      buffer := Or(And(buffer, Not128(MaskFromBitToBit(high, low))),
                   Shl(And(source, MaskNOnesFromRight(high - low + 1)), low));
      assert buffer == WithField(s.buffer, Low(s, r), Width(s, r), source);
    }

    /**
     * `with_range_do_arithmetics`: the carry is cleared, the closure's
     * result replaces the range, and the buffer is cut to the effective
     * bits.
     */
    method WithRangeDoArithmetics(r: BitsRange, op: Arith)
      requires Valid() && RangeOk(State(), r) && ArithOk(op, Span(State(), r))
      modifies this
      ensures State() == AfterArithmetic(old(State()), r, op)
      ensures Valid()
    {
      ghost var s := State();
      var high := ResolveBitIndex(r.high);
      var low := ResolveBitIndex(r.low);
      var w := high - low + 1;
      assert high == High(s, r) && low == Low(s, r) && w == Span(s, r);
      carry := false;
      SameIndexing(s, State(), r);
      var bits := GetBits(r);
      var mul := Apply(op, bits, w);
      var mask := MaskFromBitToBit(high, low);
      assert buffer == s.buffer;
      buffer := And(buffer, Not128(mask));
      buffer := Or(buffer, Shl(And(mul, MaskNOnesFromRight(w)), low));
      buffer := And(buffer, MaskNOnesFromRight(effectiveBits));
      ArithmeticSteps(s, r, op, bits, mul, mask, buffer);
    }

    /** `range_add_bits`: the range plus a u128, wrapping. */
    method RangeAddBits(r: BitsRange, additive: nat)
      requires Valid() && RangeOk(State(), r) && additive < Pow2(128)
      modifies this
      ensures State() == AfterArithmetic(old(State()), r, AddBy(additive))
      ensures Valid()
    {
      WithRangeDoArithmetics(r, AddBy(additive));
    }

    /** `range_subtract_bits`: the range minus a u128, wrapping. */
    method RangeSubtractBits(r: BitsRange, subtractive: nat)
      requires Valid() && RangeOk(State(), r) && subtractive < Pow2(128)
      modifies this
      ensures State() == AfterArithmetic(old(State()), r, SubtractBy(subtractive))
      ensures Valid()
    {
      WithRangeDoArithmetics(r, SubtractBy(subtractive));
    }

    /** `range_multiply_bits`: the range times a u128, wrapping. */
    method RangeMultiplyBits(r: BitsRange, multiplier: nat)
      requires Valid() && RangeOk(State(), r) && multiplier < Pow2(128)
      modifies this
      ensures State() == AfterArithmetic(old(State()), r, MultiplyBy(multiplier))
      ensures Valid()
    {
      WithRangeDoArithmetics(r, MultiplyBy(multiplier));
    }

    /** `range_div_bits`: the range divided by a nonzero u128 (a zero divisor panics). */
    method RangeDivBits(r: BitsRange, divisor: nat)
      requires Valid() && RangeOk(State(), r) && 0 < divisor < Pow2(128)
      modifies this
      ensures State() == AfterArithmetic(old(State()), r, DivideBy(divisor))
      ensures Valid()
    {
      WithRangeDoArithmetics(r, DivideBy(divisor));
    }

    /** `range_pow_bits`: the range to the power of the magnitude cut to a u32, wrapping. */
    method RangePowBits(r: BitsRange, magnitude: nat)
      requires Valid() && RangeOk(State(), r) && magnitude < Pow2(128)
      modifies this
      ensures State() == AfterArithmetic(old(State()), r, PowerBy(magnitude))
      ensures Valid()
    {
      WithRangeDoArithmetics(r, PowerBy(magnitude));
    }

    /** `range_mod_bits`: the remainder of the range by a nonzero u128. */
    method RangeModBits(r: BitsRange, divisor: nat)
      requires Valid() && RangeOk(State(), r) && 0 < divisor < Pow2(128)
      modifies this
      ensures State() == AfterArithmetic(old(State()), r, RemainderBy(divisor))
      ensures Valid()
    {
      WithRangeDoArithmetics(r, RemainderBy(divisor));
    }

    /** `range_xor_bits`. */
    method RangeXorBits(r: BitsRange, operand: nat)
      requires Valid() && RangeOk(State(), r) && operand < Pow2(128)
      modifies this
      ensures State() == AfterArithmetic(old(State()), r, XorWith(operand))
      ensures Valid()
    {
      WithRangeDoArithmetics(r, XorWith(operand));
    }

    /** `range_and_bits`. */
    method RangeAndBits(r: BitsRange, operand: nat)
      requires Valid() && RangeOk(State(), r) && operand < Pow2(128)
      modifies this
      ensures State() == AfterArithmetic(old(State()), r, AndWith(operand))
      ensures Valid()
    {
      WithRangeDoArithmetics(r, AndWith(operand));
    }

    /** `range_or_bits`. */
    method RangeOrBits(r: BitsRange, operand: nat)
      requires Valid() && RangeOk(State(), r) && operand < Pow2(128)
      modifies this
      ensures State() == AfterArithmetic(old(State()), r, OrWith(operand))
      ensures Valid()
    {
      WithRangeDoArithmetics(r, OrWith(operand));
    }

    /** `signed_shift_left`: the range shifted left, a shift of 128 or more panicking. */
    method SignedShiftLeft(r: BitsRange, count: nat)
      requires Valid() && RangeOk(State(), r) && count < 128
      modifies this
      ensures State() == AfterArithmetic(old(State()), r, ShiftLeftBy(count))
      ensures Valid()
    {
      WithRangeDoArithmetics(r, ShiftLeftBy(count));
    }

    /** `unsigned_shift_right`: the range shifted right, zeros coming in. */
    method UnsignedShiftRight(r: BitsRange, count: nat)
      requires Valid() && RangeOk(State(), r) && count < 128
      modifies this
      ensures State() == AfterArithmetic(old(State()), r, ShiftRightBy(count))
      ensures Valid()
    {
      WithRangeDoArithmetics(r, ShiftRightBy(count));
    }

    /** `unsigned_cyclic_shift_left`: the range rotated left by count <= its width. */
    method UnsignedCyclicShiftLeft(r: BitsRange, count: nat)
      requires Valid() && RangeOk(State(), r) && ArithOk(RotateLeftBy(count), Span(State(), r))
      modifies this
      ensures State() == AfterArithmetic(old(State()), r, RotateLeftBy(count))
      ensures Valid()
    {
      WithRangeDoArithmetics(r, RotateLeftBy(count));
    }

    /** `unsigned_cyclic_shift_right`: the range rotated right by count <= its width. */
    method UnsignedCyclicShiftRight(r: BitsRange, count: nat)
      requires Valid() && RangeOk(State(), r) && ArithOk(RotateRightBy(count), Span(State(), r))
      modifies this
      ensures State() == AfterArithmetic(old(State()), r, RotateRightBy(count))
      ensures Valid()
    {
      WithRangeDoArithmetics(r, RotateRightBy(count));
    }

    /** `range_reverse_bits`: the bits of the range in reverse order. */
    method RangeReverseBits(r: BitsRange)
      requires Valid() && RangeOk(State(), r)
      modifies this
      ensures State() == AfterArithmetic(old(State()), r, ReverseBits)
      ensures Valid()
    {
      WithRangeDoArithmetics(r, ReverseBits);
    }

    /**
     * `signed_shift_right`: the range is read and cleared, then or-ed with
     * its bits shifted down, the vacated top bits copying its sign bit.
     */
    method SignedShiftRight(r: BitsRange, count: nat)
      requires SignedShiftRightOk(State(), r, count)
      modifies this
      ensures State() == SignedShiftedRight(old(State()), r, count)
      ensures Valid()
    {
      ghost var s := State();
      var high := ResolveBitIndex(r.high);
      var low := ResolveBitIndex(r.low);
      var n := high - low + 1;
      assert low == Low(s, r) && n == Span(s, r);
      var x := buffer;
      RangeMask(low, Width(s, r), n);
      MaskedRead(x, low, Width(s, r));
      var mask := Shl(MaskNOnesFromRight(n), low);
      var bitsToShift := Shr(And(x, mask), low);
      assert bitsToShift == Numbers.GetBits(s, r) < Pow2(n) by {
        Pow2Le(Width(s, r), n);
      }
      assert 1 <= n <= 128 && count < 128;
      assert Pow2(n - 1) <= bitsToShift ==> count <= n && n - count < 128;
      x := And(x, Not128(mask));
      // left_bits | (bits_to_shift >> count) & mask_n_ones_from_right(n)
      x := Or(x, Shl(ShiftedField(bitsToShift, n, count), low));
      buffer := x;
    }

    /** `negate`: the register becomes signed and holds the negation of its value, cut to the width. */
    method Negate()
      requires NegateOk(State())
      modifies this
      ensures State() == Negated(old(State()))
      ensures Valid()
    {
      ghost var s := State();
      isSigned := true;
      SameIndexing(s, State(), Full);
      var num := GetBits(Full);
      assert num == Numbers.GetBits(s, Full);
      FullRange(s);
      // (-(num as i128)) as u128, cut to the width
      buffer := NegatedBits(num, effectiveBits);
    }

    /** `max_size`: the effective width. */
    method MaxSize() returns (n: nat)
      ensures n == effectiveBits
    {
      n := effectiveBits;
    }

    /**
     * `signed_extend_to`: a negative register gets every leading zero of its
     * buffer set; the width becomes the new size in any case.
     */
    method SignedExtendTo(newMaxSize: nat)
      requires SignExtendOk(State())
      modifies this
      ensures State() == SignExtended(old(State()), newMaxSize)
      ensures newMaxSize <= 128 ==> Valid()
    {
      var negative := IsNegative();
      if negative {
        BitLengthLe(buffer, 128);
        var leadingZeros := 128 - BitLength(buffer);
        buffer := Or(buffer, Shl(MaskNOnesFromRight(leadingZeros), 128 - leadingZeros));
      }
      effectiveBits := newMaxSize;
    }

    /** `convert`: new type, signedness and width, the buffer cut to the width. */
    method Convert(t: NumberType, signed: bool, size: nat)
      requires size <= 128
      modifies this
      ensures State() == Converted(old(State()), t, signed, size)
      ensures Valid()
    {
      numberType := t;
      isSigned := signed;
      effectiveBits := size;
      buffer := And(buffer, MaskNOnesFromRight(size));
      ConvertKeepsLowBits(old(State()), t, signed, size);
    }

    /** `to_usize`: the buffer cast to a 64-bit `usize`, which keeps its low 64 bits. */
    method ToUsize() returns (u: nat)
      ensures u < Pow2(64) && u == buffer % Pow2(64)
      ensures forall i: nat :: i < 64 ==> (Bit(u, i) <==> Bit(buffer, i))
      ensures buffer < Pow2(64) ==> u == buffer
    {
      u := buffer % Pow2(64);
      LowBits(buffer, 64);
      if buffer < Pow2(64) {
        ModLess(buffer, Pow2(64));
      }
    }

    /** `to_u128`: the buffer. */
    method ToU128() returns (v: nat)
      ensures v == buffer
    {
      v := buffer;
    }

    /** `is_negative`: signed, with the top effective bit set. */
    method IsNegative() returns (b: bool)
      requires SignReadable(State())
      ensures b == Numbers.IsNegative(State())
    {
      b := isSigned && And(buffer, MaskNthBit(effectiveBits - 1)) != 0;
    }

    /** `signed`: whether the register is signed. */
    method Signed() returns (b: bool)
      ensures b == isSigned
    {
      b := isSigned;
    }

    /**
     * `range_count_bits(r, which)`: the zeros (0) or the ones (1) of the
     * range, `usize::MAX` for any other selector.
     */
    method RangeCountBits(r: BitsRange, which: nat) returns (n: nat)
      requires CountBitsOk(State(), r, which)
      ensures n == CountBits(State(), r, which)
    {
      var high := ResolveBitIndex(r.high);
      var low := ResolveBitIndex(r.low);
      var bits := GetBits(r);
      if which == 0 {
        // count_zeros of a u128
        n := 128 - Ones(Or(bits, MaskFromBitToBit(127, high + 1 - low)), 128);
      } else if which == 1 {
        n := Ones(And(bits, MaskNOnesFromRight(high + 1 - low)), 128);
      } else {
        n := USIZE_MAX;
      }
    }

    /**
     * `to_string(radix, with_prefix)`: the digits of the printed magnitude,
     * after the prefix when asked for, after a '-' for a negative register.
     */
    method ToString(radix: nat, withPrefix: bool) returns (s: string)
      requires Valid() && SignReadable(State()) && Literals.PrintableRadix(radix)
      ensures s == Literals.ToString(State(), radix, withPrefix)
    {
      var negative := IsNegative();
      var value := PrintedValue();
      s := RadixDigits(value, radix);
      if withPrefix {
        s := Literals.RadixPrefix(radix) + s;
      }
      if negative {
        s := "-" + s;
      }
      Formatted(State(), radix, withPrefix, RadixDigits(value, radix), s);
    }

    /**
     * The number `to_string` prints: the buffer, or for a negative register
     * the complement of buffer - 1 cut to the bits below the sign bit.
     */
    method PrintedValue() returns (value: nat)
      requires Valid() && SignReadable(State())
      ensures value == Literals.PrintedMagnitude(State())
    {
      var negative := IsNegative();
      Literals.NegativeIsNonzero(State());
      if negative {
        value := And(Not128(buffer - 1), MaskNOnesFromRight(effectiveBits - 1));
      } else {
        value := buffer;
      }
    }

    /** `to_string_prefixed`: `to_string` with the radix prefix. */
    method ToStringPrefixed(radix: nat) returns (s: string)
      requires Valid() && SignReadable(State()) && Literals.PrintableRadix(radix)
      ensures s == Literals.ToString(State(), radix, true)
    {
      s := ToString(radix, true);
    }
  }
}
