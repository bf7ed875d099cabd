// The range-addressed register engine of src/number.rs.
//
// A register is a u128 buffer of which only the low `effective_bits` are
// meant to be used, together with a number type, a signedness flag and a
// carry flag. Bits are addressed by inclusive ranges [high:low] whose ends
// may be symbolic (the highest or the lowest bit of the register). Every
// ranged operation extracts the range as a number, computes, and writes the
// result back to the same range.
module Numbers {
  import opened Bits
  import opened Results

  datatype BitsIndex = Highest | Lowest | Indexed(i: nat)

  /** An inclusive range of bit indices, the high end first. */
  datatype BitsRange = BitsRange(high: BitsIndex, low: BitsIndex)

  datatype NumberType = Integer | Float | Fixed

  /** The fields of a register; also what `clone` copies into a snapshot. */
  datatype NumberState = NumberState(buffer: nat, effectiveBits: nat, numberType: NumberType,
                                     isSigned: bool, carry: bool)
  {
    /** The buffer is a u128 and the register is no wider than its buffer. */
    predicate Valid()
    {
      buffer < Pow2(128) && effectiveBits <= 128
    }
  }

  /** `usize::MAX` on a 64-bit target. */
  const USIZE_MAX: nat := 0xFFFF_FFFF_FFFF_FFFF

  // ---------------------------------------------------------------------
  // Masks
  // ---------------------------------------------------------------------

  /** `mask_nth_bit(n)`: bit 127 by a shift, the others as an `i128` power of two. */
  function MaskNthBit(n: nat): (m: nat)
    requires n < 128
    ensures m == Pow2(n)
  {
    if n == 127 then
      ShlNoLoss(1, 127);
      Shl(1, 127)
    else
      Pow2(n)
  }

  /**
   * `mask_n_ones_from_right(n)`: 127 and 128 by special cases, the others as
   * the complement of the two's-complement pattern of -(2^n).
   */
  function MaskNOnesFromRight(n: nat): (m: nat)
    requires n <= 128
    ensures m == Pow2(n) - 1
  {
    if n == 127 then
      Pow2Sub(127, 128);
      DivModUnique(Pow2(128) - 1, 2, Pow2(127) - 1, 1);
      Shr(Pow2(128) - 1, 1)
    else if n == 128 then
      Pow2(128) - 1
    else
      Pow2Le(n, 128);
      Not128(Pow2(128) - Pow2(n))
  }

  /** `mask_from_bit_to_bit(high, low)`: ones from bit low up to bit high inclusive. */
  function MaskFromBitToBit(high: nat, low: nat): (m: nat)
    requires low <= high + 1 && high + 1 - low <= 128 && low < 128
    ensures m < Pow2(128)
    ensures high < 128 ==> m == (Pow2(high + 1 - low) - 1) * Pow2(low)
    ensures 128 <= high ==> m == (Pow2(128 - low) - 1) * Pow2(low)
  {
    var n := high + 1 - low;
    var m := MaskNOnesFromRight(n);
    if n == 0 then
      ShlFits(m, low, 0);
      Shl(m, low)
    else if high < 128 then
      ShiftedOnes(m, low, n, n);
      Shl(m, low)
    else
      ShiftedOnes(m, low, 128 - low, n);
      Shl(m, low)
  }

  /** And-ing with `mask_n_ones_from_right(n)` reduces modulo 2^n. */
  lemma AndLowMask(x: nat, n: nat)
    requires n <= 128
    ensures And(x, MaskNOnesFromRight(n)) == x % Pow2(n)
  {
    AndOnesAt(x, n, MaskNOnesFromRight(n));
  }

  // ---------------------------------------------------------------------
  // Width rounding
  // ---------------------------------------------------------------------

  /** The digit character for d: '0'..'9', then lower-case 'a'..'f' as `{:x}` writes them. */
  function DigitChar(d: nat): char
    requires d < 16
  {
    if d < 10 then ('0' as int + d) as char else ('a' as int + d - 10) as char
  }

  /** The digits of v in the radix, most significant first, without leading zeros. */
  function RadixDigits(v: nat, radix: nat): (s: string)
    requires 2 <= radix <= 16
    ensures |s| >= 1
    decreases v
  {
    if v < radix then [DigitChar(v)] else RadixDigits(v / radix, radix) + [DigitChar(v % radix)]
  }

  /** The decimal digits of n, as `format!("{}", n)` writes them. */
  function Decimal(n: nat): string
  {
    RadixDigits(n, 10)
  }

  /**
   * `next_power_of_two_rounded_up(n)` after Hacker's Delight section 3.2:
   * the leading zeros of the `i32` n - 1 select a power of two by shifting
   * 2^31 right, and adding 7 then and-ing with the `i32` -8 (bit pattern
   * 0xFFFF_FFF8) rounds it to a multiple of 8.
   */
  function NextPowerOfTwoRoundedUp(n: nat): (r: Result<nat>)
    ensures r.Panic? == false
  {
    if n == 0 then
      Ok(8)
    else if n < 513 then
      BitsBelow512(n);
      var abra: nat := 32 - BitLength(n - 1);
      var cadabra: nat := 0x8000_0000 / Pow2(abra - 1);
      Ok(And(cadabra + 7, 0xFFFF_FFF8))
    else
      Err("error, length too big; length cannot be zero, given " + Decimal(n))
  }

  lemma BitsBelow512(n: nat)
    requires 1 <= n <= 512
    ensures BitLength(n - 1) <= 9
  {
    Pow2Small();
    assert Pow2(9) == 512 by { Pow2Add(8, 1); }
    BitLengthLe(n - 1, 9);
  }

  /** max(3, the number of bits of n - 1): the exponent the rounding arrives at. */
  function RoundedExponent(n: nat): nat
    requires n >= 1
  {
    if BitLength(n - 1) < 3 then 3 else BitLength(n - 1)
  }

  /** `0x8000_0000 >> (31 - b)` is 2^b; here for any n in place of 31. */
  lemma ShiftedPowerOfTwo(b: nat, n: nat)
    requires b <= n
    ensures Pow2(n) / Pow2(n - b) == Pow2(b)
  {
    var p, q := Pow2(b), Pow2(n - b);
    assert Pow2(n) == p * q by {
      Pow2Add(b, n - b);
    }
    MulDiv(p, q, 0);
    assert p * q + 0 == Pow2(n);
  }

  /** The `i32` -8 as a bit pattern: 29 ones above three zeros. */
  lemma RoundingMask()
    ensures (Pow2(29) - 1) * Pow2(3) == 0xFFFF_FFF8
  {
    Pow2Small();
    Pow2Words();
    Pow2Sub(29, 32);
  }

  /** The field of q * 2^l + r, for r below 2^l and q below 2^w, is q. */
  lemma FieldOfParts(x: nat, q: nat, p: nat, r: nat, l: nat, w: nat)
    requires p == Pow2(l) && x == q * p + r && r < p && q < Pow2(w)
    ensures Field(x, l, w) * p == q * p
  {
    MulDiv(q, p, r);
    ModLess(q, Pow2(w));
  }

  /** The bits of 2^b + 2^l - 1 from bit l on, for b of at least l: 2^(b - l). */
  lemma RoundingFieldHigh(b: nat, l: nat, w: nat)
    requires l <= b < l + w
    ensures Field(Pow2(b) + Pow2(l) - 1, l, w) * Pow2(l) == Pow2(b)
  {
    Pow2Sub(l, b);
    Pow2Lt(b - l, w);
    var q, p, pb := Pow2(b - l), Pow2(l), Pow2(b);
    assert pb == p * q;
    RoundingAlgebra(pb + p - 1, q, p, pb);
    FieldOfParts(pb + p - 1, q, p, p - 1, l, w);
  }

  lemma RoundingAlgebra(x: int, q: int, p: int, pb: int)
    requires pb == p * q && x == pb + p - 1
    ensures x == q * p + (p - 1) && q * p == pb
  {
  }

  /** The bits of 2^b + 2^l - 1 from bit l on, for b below l: 1. */
  lemma RoundingFieldLow(b: nat, l: nat, w: nat)
    requires b < l && w >= 1
    ensures Field(Pow2(b) + Pow2(l) - 1, l, w) * Pow2(l) == Pow2(l)
  {
    Pow2Lt(b, l);
    Pow2Lt(0, w);
    var p := Pow2(l);
    FieldOfParts(Pow2(b) + p - 1, 1, p, Pow2(b) - 1, l, w);
  }

  /** `(2^b + 7) & -8` is 2^b rounded up to at least 8. */
  lemma RoundUpToEight(b: nat)
    requires b <= 9
    ensures And(Pow2(b) + 7, 0xFFFF_FFF8) == Pow2(if b < 3 then 3 else b)
  {
    RoundingMask();
    AndFieldMask(Pow2(b) + 7, 3, 29);
    assert Pow2(3) == 8;
    if b >= 3 {
      RoundingFieldHigh(b, 3, 29);
    } else {
      RoundingFieldLow(b, 3, 29);
    }
  }

  lemma NextPowerOfTwoRoundedUpValue(n: nat)
    ensures n == 0 ==> NextPowerOfTwoRoundedUp(n) == Ok(8)
    ensures 1 <= n <= 512 ==> NextPowerOfTwoRoundedUp(n) == Ok(Pow2(RoundedExponent(n)))
    ensures n > 512 ==> NextPowerOfTwoRoundedUp(n).Err?
  {
    if 1 <= n <= 512 {
      RoundingSteps(n);
      var b := BitLength(n - 1);
      HighBitShifted(b);
      RoundUpToEight(b);
    }
  }

  lemma RoundingSteps(n: nat)
    requires 1 <= n <= 512
    ensures BitLength(n - 1) <= 9
    ensures NextPowerOfTwoRoundedUp(n)
         == Ok(And(0x8000_0000 / Pow2(31 - BitLength(n - 1)) + 7, 0xFFFF_FFF8))
  {
    BitsBelow512(n);
  }

  /** `0x8000_0000 >> (31 - b)` is 2^b. */
  lemma HighBitShifted(b: nat)
    requires b <= 31
    ensures 0x8000_0000 / Pow2(31 - b) == Pow2(b)
  {
    Pow2Words();
    assert Pow2(32) == 2 * Pow2(31);
    ShiftedPowerOfTwo(b, 31);
  }

  /**
   * For 1 <= n <= 512 the rounded width is the least power of two among
   * 8, 16, ..., 512 that is at least n.
   */
  lemma NextPowerOfTwoIsLeast(n: nat)
    requires 1 <= n <= 512
    ensures NextPowerOfTwoRoundedUp(n).Ok?
    ensures var r := NextPowerOfTwoRoundedUp(n).value;
      8 <= r <= 512 && n <= r && r == Pow2(RoundedExponent(n))
    ensures var r := NextPowerOfTwoRoundedUp(n).value;
      forall k: nat :: 3 <= k && n <= Pow2(k) ==> r <= Pow2(k)
  {
    NextPowerOfTwoRoundedUpValue(n);
    var b := BitLength(n - 1);
    var e := RoundedExponent(n);
    Pow2Small();
    assert Pow2(9) == 512 by { Pow2Add(8, 1); }
    BitLengthLe(n - 1, 9);
    BitLengthBounds(n - 1);
    Pow2Le(3, e);
    Pow2Le(e, 9);
    Pow2Le(b, e);
    forall k: nat | 3 <= k && n <= Pow2(k)
      ensures Pow2(e) <= Pow2(k)
    {
      if e == 3 {
        Pow2Le(3, k);
      } else if k < b {
        Pow2Le(k, b - 1);
      } else {
        Pow2Le(b, k);
      }
    }
  }

  /** `Number::new`: a zero register of the rounded width. */
  function NewNumber(numberType: NumberType, isSigned: bool, size: nat): (r: Result<NumberState>)
    ensures r.Ok? <==> size <= 512
    ensures r.Ok? ==> r.value.buffer == 0 && r.value.effectiveBits == NextPowerOfTwoRoundedUp(size).value
  {
    NextPowerOfTwoRoundedUpValue(size);
    match NextPowerOfTwoRoundedUp(size)
    case Ok(width) => Ok(NumberState(0, width, numberType, isSigned, false))
    case Err(m) => Err(m)
  }

  // ---------------------------------------------------------------------
  // Ranges
  // ---------------------------------------------------------------------

  /** Resolving `Highest` reads `effective_bits - 1`, which underflows on a zero-width register. */
  predicate Resolvable(s: NumberState, bi: BitsIndex)
  {
    bi.Highest? ==> s.effectiveBits >= 1
  }

  /** `resolve_bit_index`. */
  function ResolveBitIndex(s: NumberState, bi: BitsIndex): (i: nat)
    requires Resolvable(s, bi)
    ensures bi.Highest? ==> i < s.effectiveBits
  {
    match bi
    case Indexed(i) => i
    case Highest => s.effectiveBits - 1
    case Lowest => 0
  }

  /**
   * A range the engine can work on without panicking: both ends resolve,
   * low <= high (`high - low + 1` underflows below), the low end lies
   * inside the u128 (a shift by 128 or more panics) and the width is at
   * most 128 (`mask_n_ones_from_right` overflows beyond). The high end may
   * lie past bit 127: the bits above the u128 are then dropped.
   */
  predicate RangeOk(s: NumberState, r: BitsRange)
  {
    Resolvable(s, r.high) && Resolvable(s, r.low)
    && ResolveBitIndex(s, r.low) <= ResolveBitIndex(s, r.high)
    && ResolveBitIndex(s, r.low) < 128
    && ResolveBitIndex(s, r.high) + 1 - ResolveBitIndex(s, r.low) <= 128
  }

  function High(s: NumberState, r: BitsRange): nat
    requires RangeOk(s, r)
  {
    ResolveBitIndex(s, r.high)
  }

  function Low(s: NumberState, r: BitsRange): nat
    requires RangeOk(s, r)
  {
    ResolveBitIndex(s, r.low)
  }

  /** The number of bits of the range inside the u128: all of them unless the range runs past bit 127. */
  function Width(s: NumberState, r: BitsRange): (w: nat)
    requires RangeOk(s, r)
    ensures 1 <= w && Low(s, r) + w <= 128
    ensures High(s, r) < 128 ==> w == High(s, r) - Low(s, r) + 1
    ensures 128 <= High(s, r) ==> Low(s, r) + w == 128
  {
    if High(s, r) < 128 then High(s, r) - Low(s, r) + 1 else 128 - Low(s, r)
  }

  /**
   * `high - low + 1`, the width the closures, the counting and the
   * arithmetic shift compute with; it exceeds `Width` exactly when the
   * range runs past bit 127.
   */
  function Span(s: NumberState, r: BitsRange): (n: nat)
    requires RangeOk(s, r)
    ensures Width(s, r) <= n <= 128 && Pow2(Width(s, r)) <= Pow2(n)
    ensures High(s, r) < 128 <==> n == Width(s, r)
  {
    Pow2Le(Width(s, r), High(s, r) - Low(s, r) + 1);
    High(s, r) - Low(s, r) + 1
  }

  /** Bit indices resolve against the effective bits alone. */
  lemma SameIndexing(s: NumberState, t: NumberState, r: BitsRange)
    requires RangeOk(s, r) && t.effectiveBits == s.effectiveBits
    ensures RangeOk(t, r) && Low(t, r) == Low(s, r) && High(t, r) == High(s, r)
    ensures Width(t, r) == Width(s, r) && Span(t, r) == Span(s, r)
  {
  }

  /** The whole register, [Highest:Lowest]. */
  const Full := BitsRange(Highest, Lowest)

  /** `get_bits`: the range, and-ed out and shifted down. */
  function GetBits(s: NumberState, r: BitsRange): (v: nat)
    requires RangeOk(s, r)
    ensures v == Field(s.buffer, Low(s, r), Width(s, r))
  {
    var high := ResolveBitIndex(s, r.high);
    var low := ResolveBitIndex(s, r.low);
    RangeMasks(s, r, 0);
    MaskedRead(s.buffer, low, Width(s, r));
    Shr(And(s.buffer, MaskFromBitToBit(high, low)), low)
  }

  /**
   * The masks of a range are those of its bits inside the u128: `<<` on a
   * u128 drops whatever is pushed past bit 127.
   */
  lemma RangeMasks(s: NumberState, r: BitsRange, v: nat)
    requires RangeOk(s, r)
    ensures MaskFromBitToBit(High(s, r), Low(s, r)) == MaskFromBitToBit(Low(s, r) + Width(s, r) - 1, Low(s, r))
    ensures Shl(And(v, MaskNOnesFromRight(Span(s, r))), Low(s, r))
         == Shl(And(v, MaskNOnesFromRight(Width(s, r))), Low(s, r))
  {
    var l, w, n := Low(s, r), Width(s, r), Span(s, r);
    if 128 <= High(s, r) {
      MaskPastTheWord(High(s, r), l);
    }
    AndLowMask(v, n);
    AndLowMask(v, w);
    ShlLowBits(v, l, w, n);
  }

  /** A mask running past bit 127 is the mask up to bit 127. */
  lemma MaskPastTheWord(high: nat, low: nat)
    requires low < 128 <= high && high + 1 - low <= 128
    ensures MaskFromBitToBit(high, low) == MaskFromBitToBit(127, low)
  {
    var w := 128 - low;
    assert MaskFromBitToBit(127, low) == (Pow2(w) - 1) * Pow2(low);
  }

  /** Shifted up by l, v modulo 2^n and v modulo 2^w agree on the u128. */
  lemma ShlLowBits(v: nat, l: nat, w: nat, n: nat)
    requires CutRange(l, w, n)
    ensures Shl(v % Pow2(n), l) == Shl(v % Pow2(w), l)
  {
    if w < n {
      ShlKeepsLow(v % Pow2(n), l, w);
      ShlKeepsLow(v % Pow2(w), l, w);
      ModPow2Mul(v, w, n);
      ModPow2Mul(v, w, w);
    }
  }

  /**
   * A range running past bit 127 reads and writes the same bits as the
   * range from its low end to bit 127; only its nominal width differs.
   */
  lemma RangePastTheWord(s: NumberState, r: BitsRange, v: nat)
    requires RangeOk(s, r) && 128 <= High(s, r)
    ensures var c := BitsRange(Indexed(127), r.low);
      RangeOk(s, c) && Low(s, c) == Low(s, r) && Width(s, c) == Width(s, r) == 128 - Low(s, r)
      && Width(s, r) < Span(s, r)
      && GetBits(s, c) == GetBits(s, r) && WithBitsSet(s, c, v) == WithBitsSet(s, r, v)
  {
    var c := BitsRange(Indexed(127), r.low);
    assert High(s, c) == 127;
  }

  /**
   * On a 128-bit register, [130:5] reads every bit from bit 5 up: 123 bits
   * of the u128, from a nominal width of 126.
   */
  lemma RangePastTheWordExample(x: nat)
    requires x < Pow2(128)
    ensures var s := NumberState(x, 128, Integer, false, false);
      var r := BitsRange(Indexed(130), Indexed(5));
      RangeOk(s, r) && Width(s, r) == 123 && Span(s, r) == 126 && GetBits(s, r) == x / Pow2(5)
  {
    var s := NumberState(x, 128, Integer, false, false);
    var r := BitsRange(Indexed(130), Indexed(5));
    assert GetBits(s, r) == Field(x, 5, 123);
    DivBound(x, 5, 128);
    ModLess(x / Pow2(5), Pow2(123));
  }

  /** On a u128, shifting left by l keeps only the low k = 128 - l bits. */
  lemma ShlCut(x: nat, l: nat, k: nat)
    requires l < 128 && k == 128 - l
    ensures Shl(x, l) == Shl(x % Pow2(k), l)
  {
    ShiftLeftMod(x, l, 128);
    ShiftLeftMod(x % Pow2(k), l, 128);
    ModPow2Mul(x, k, k);
  }

  /** And-ing with the mask of [l + w - 1:l] and shifting down by l reads the field. */
  lemma MaskedRead(x: nat, l: nat, w: nat)
    requires 1 <= w && l + w <= 128
    ensures Shr(And(x, MaskFromBitToBit(l + w - 1, l)), l) == Field(x, l, w)
  {
    var m := MaskFromBitToBit(l + w - 1, l);
    assert m == (Pow2(w) - 1) * Pow2(l);
    AndFieldMask(x, l, w);
    MulDiv(Field(x, l, w), Pow2(l), 0);
  }

  /** Masking a u128 bit by bit, as `set_bits` and the ranged operations do, writes a field. */
  lemma MaskedWrite(x: nat, l: nat, w: nat, v: nat)
    requires x < Pow2(128) && 1 <= w && l + w <= 128
    ensures var m := MaskFromBitToBit(l + w - 1, l);
      m < Pow2(128) && And(v, MaskNOnesFromRight(w)) < Pow2(128 - l)
    ensures Or(And(x, Not128(MaskFromBitToBit(l + w - 1, l))), Shl(And(v, MaskNOnesFromRight(w)), l))
         == WithField(x, l, w, v)
    ensures WithField(x, l, w, v) < Pow2(128)
  {
    ClearField(x, l, w);
    AndOnes(v, w);
    Pow2Le(w, 128 - l);
    ShlNoLoss(v % Pow2(w), l);
    OrIntoClearedField(x, l, w, v % Pow2(w));
    ModPow2Mul(v, w, w);
    WithFieldBound(x, l, w, v, 128);
  }

  /** The register after `set_bits(r, v)`: the range holds the low bits of v. */
  function WithBitsSet(s: NumberState, r: BitsRange, v: nat): NumberState
    requires RangeOk(s, r)
  {
    s.(buffer := WithField(s.buffer, Low(s, r), Width(s, r), v))
  }

  /**
   * After `set_bits(r, v)`, reading the range yields v modulo 2^width, and
   * every bit outside the range, with every other field, is unchanged.
   */
  lemma GetAfterSet(s: NumberState, r: BitsRange, v: nat)
    requires s.Valid() && RangeOk(s, r)
    ensures var t := WithBitsSet(s, r, v);
      t.Valid() && RangeOk(t, r) && GetBits(t, r) == v % Pow2(Width(s, r))
    ensures var t := WithBitsSet(s, r, v);
      forall i: nat :: (i < Low(s, r) || High(s, r) < i) ==> (Bit(t.buffer, i) <==> Bit(s.buffer, i))
    ensures var t := WithBitsSet(s, r, v);
      t.effectiveBits == s.effectiveBits && t.numberType == s.numberType
      && t.isSigned == s.isSigned && t.carry == s.carry
  {
    var l, w := Low(s, r), Width(s, r);
    var t := WithBitsSet(s, r, v);
    assert RangeOk(t, r) && Low(t, r) == l && Width(t, r) == w;
    FieldOfWithField(s.buffer, l, w, v);
    WithFieldBound(s.buffer, l, w, v, 128);
    WithFieldOutside(s.buffer, l, w, v);
  }

  /** Writing back what `get_bits` read changes nothing. */
  lemma SetWhatWasRead(s: NumberState, r: BitsRange)
    requires RangeOk(s, r)
    ensures WithBitsSet(s, r, GetBits(s, r)) == s
  {
    WithSameField(s.buffer, Low(s, r), Width(s, r));
  }

  // ---------------------------------------------------------------------
  // Ranged arithmetic
  // ---------------------------------------------------------------------

  /**
   * The closures the `range_*` operations hand to
   * `with_range_do_arithmetics`, each with the operand it captures.
   */
  datatype Arith =
    | AddBy(operand: nat)          // range_add_bits: wrapping_add
    | SubtractBy(operand: nat)     // range_subtract_bits: wrapping_sub
    | MultiplyBy(operand: nat)     // range_multiply_bits: wrapping_mul
    | DivideBy(operand: nat)       // range_div_bits: wrapping_div
    | PowerBy(operand: nat)        // range_pow_bits: wrapping_pow(magnitude as u32)
    | RemainderBy(operand: nat)    // range_mod_bits: wrapping_rem
    | XorWith(operand: nat)        // range_xor_bits
    | AndWith(operand: nat)        // range_and_bits
    | OrWith(operand: nat)         // range_or_bits
    | ShiftLeftBy(count: nat)      // signed_shift_left: a << count
    | ShiftRightBy(count: nat)     // unsigned_shift_right: a >> count
    | RotateLeftBy(count: nat)     // unsigned_cyclic_shift_left
    | RotateRightBy(count: nat)    // unsigned_cyclic_shift_right
    | ReverseBits                  // range_reverse_bits

  /**
   * When a closure runs without panicking on a range of width w: u128
   * operands, no division by zero, and shift amounts below 128 (the
   * rotations also shift by w - count, which must not underflow).
   */
  predicate ArithOk(op: Arith, w: nat)
  {
    match op
    case DivideBy(d) => 0 < d < Pow2(128)
    case RemainderBy(d) => 0 < d < Pow2(128)
    case ShiftLeftBy(c) => c < 128
    case ShiftRightBy(c) => c < 128
    case RotateLeftBy(c) => c <= w && c < 128 && w - c < 128
    case RotateRightBy(c) => c <= w && c < 128 && w - c < 128
    case ReverseBits => 1 <= w <= 128
    case _ => op.operand < Pow2(128)
  }

  /** a to the e-th power. */
  function Power(a: nat, e: nat): nat
  {
    if e == 0 then 1 else a * Power(a, e - 1)
  }

  /** The closure applied to the extracted range a, for a range of width w. */
  function Apply(op: Arith, a: nat, w: nat): (r: nat)
    requires a < Pow2(128) && ArithOk(op, w)
    ensures r < Pow2(128)
  {
    match op
    case AddBy(k) => (a + k) % Pow2(128)
    case SubtractBy(k) => (a - k) % Pow2(128)
    case MultiplyBy(k) => (a * k) % Pow2(128)
    case DivideBy(k) => DivNat(a, k); a / k
    case PowerBy(m) => Power(a, m % Pow2(32)) % Pow2(128)
    case RemainderBy(k) => a % k
    case XorWith(k) => BitwiseBound(XorOp, a, k, 128); Xor(a, k)
    case AndWith(k) => BitwiseBound(AndOp, a, k, 128); And(a, k)
    case OrWith(k) => BitwiseBound(OrOp, a, k, 128); Or(a, k)
    case ShiftLeftBy(c) => Shl(a, c)
    case ShiftRightBy(c) => DivNat(a, Pow2(c)); Shr(a, c)
    case RotateLeftBy(c) => CyclicLeft(a, w, c)
    case RotateRightBy(c) => CyclicRight(a, w, c)
    case ReverseBits => ReversedRange(a, w)
  }

  /** `(a << c) | (a >> (w - c))`, the closure of `unsigned_cyclic_shift_left`. */
  function CyclicLeft(a: nat, w: nat, c: nat): (r: nat)
    requires a < Pow2(128) && c <= w && c < 128 && w - c < 128
    ensures r < Pow2(128)
  {
    DivNat(a, Pow2(w - c));
    BitwiseBound(OrOp, Shl(a, c), Shr(a, w - c), 128);
    Or(Shl(a, c), Shr(a, w - c))
  }

  /** `(a >> c) | (a << (w - c))`, the closure of `unsigned_cyclic_shift_right`. */
  function CyclicRight(a: nat, w: nat, c: nat): (r: nat)
    requires a < Pow2(128) && c <= w && c < 128 && w - c < 128
    ensures r < Pow2(128)
  {
    DivNat(a, Pow2(c));
    BitwiseBound(OrOp, Shr(a, c), Shl(a, w - c), 128);
    Or(Shr(a, c), Shl(a, w - c))
  }

  /** `a.reverse_bits() >> (128 - w)`, the closure of `range_reverse_bits`. */
  function ReversedRange(a: nat, w: nat): (r: nat)
    requires 1 <= w <= 128
    ensures r < Pow2(128)
  {
    DivNat(Reverse(a, 128), Pow2(128 - w));
    Shr(Reverse(a, 128), 128 - w)
  }

  /** w bits of a rotated left by c: the low w - c bits move up, the top c bits wrap to the bottom. */
  function RotatedLeft(a: nat, w: nat, c: nat): nat
    requires c <= w
  {
    (a % Pow2(w - c)) * Pow2(c) + a / Pow2(w - c)
  }

  /** The closures that wrap around: their u128 result is an exact integer result reduced modulo 2^128. */
  predicate Wraps(op: Arith)
  {
    op.AddBy? || op.SubtractBy? || op.MultiplyBy? || op.PowerBy? || op.ShiftLeftBy?
  }

  /** The exact result a wrapping closure would have without a bound on the integers. */
  function Unbounded(op: Arith, a: nat): int
    requires Wraps(op)
  {
    match op
    case AddBy(k) => a + k
    case SubtractBy(k) => a - k
    case MultiplyBy(k) => a * k
    case PowerBy(m) => Power(a, m % Pow2(32))
    case ShiftLeftBy(c) => a * Pow2(c)
  }

  /**
   * Within a range of width w, a wrapping closure agrees with exact
   * arithmetic modulo 2^w: the range wraps as a w-bit integer would.
   */
  lemma WrapsWithinRange(op: Arith, a: nat, w: nat)
    requires Wraps(op) && a < Pow2(128) && w <= 128 && ArithOk(op, w)
    ensures Apply(op, a, w) % Pow2(w) == Unbounded(op, a) % Pow2(w)
  {
    var x := Unbounded(op, a);
    assert Apply(op, a, w) == x % Pow2(128);
    ModModInt(x, w, 128);
  }

  /** Reversing a range reverses exactly its w bits. */
  lemma ReverseWithinRange(a: nat, w: nat)
    requires a < Pow2(w) && 1 <= w <= 128
    ensures Pow2(w) <= Pow2(128)
    ensures Apply(ReverseBits, a, w) == Reverse(a, w)
  {
    Pow2Le(w, 128);
    ReverseNarrow(a, w, 128);
  }

  lemma RotateLeftWithinRange(a: nat, w: nat, c: nat)
    requires a < Pow2(w) && 1 <= w <= 128 && ArithOk(RotateLeftBy(c), w)
    ensures Pow2(w) <= Pow2(128)
    ensures Apply(RotateLeftBy(c), a, w) % Pow2(w) == RotatedLeft(a, w, c)
  {
    Pow2Le(w, 128);
    RotationAlgebra(a, w, c, 128);
  }

  lemma RotateRightWithinRange(a: nat, w: nat, c: nat)
    requires a < Pow2(w) && 1 <= w <= 128 && ArithOk(RotateRightBy(c), w)
    ensures Pow2(w) <= Pow2(128)
    ensures Apply(RotateRightBy(c), a, w) % Pow2(w) == RotatedLeft(a, w, w - c)
  {
    Pow2Le(w, 128);
    DivNat(a, Pow2(c));
    BitwiseComm(OrOp, Shr(a, c), Shl(a, w - c));
    assert w - (w - c) == c;
    RotationAlgebra(a, w, w - c, 128);
  }

  /**
   * Shifting a w-bit a left by k within n bits and or-ing in its top k bits
   * shifted down, then reducing to w bits, is the rotation of a by k.
   */
  lemma RotationAlgebra(a: nat, w: nat, k: nat, n: nat)
    requires a < Pow2(w) && k <= w <= n
    ensures a / Pow2(w - k) >= 0
    ensures Or((a * Pow2(k)) % Pow2(n), a / Pow2(w - k)) % Pow2(w) == RotatedLeft(a, w, k)
  {
    var y := a / Pow2(w - k);
    DivNat(a, Pow2(w - k));
    DivBound(a, w - k, w);
    assert w - (w - k) == k;
    ShiftLeftMod(a, k, n);
    var v := a % Pow2(n - k);
    BitwiseComm(OrOp, v * Pow2(k), y);
    OrDisjoint(y, v, k);
    LowPlusShiftedMod(y, v, k, w);
    ModPow2Mul(a, w - k, n - k);
  }

  /**
   * The register after `with_range_do_arithmetics(r, op)`: the carry is
   * cleared, the range receives the closure's result, and the buffer is cut
   * to the effective bits.
   */
  function AfterArithmetic(s: NumberState, r: BitsRange, op: Arith): NumberState
    requires s.Valid() && RangeOk(s, r) && ArithOk(op, Span(s, r))
  {
    var f := Field(s.buffer, Low(s, r), Width(s, r));
    Pow2Le(Width(s, r), 128);
    s.(buffer := WithField(s.buffer, Low(s, r), Width(s, r), Apply(op, f, Span(s, r)))
                 % Pow2(s.effectiveBits),
       carry := false)
  }

  /**
   * A ranged operation leaves the register valid, clears the carry, keeps
   * every bit at or above `effective_bits` zero, gives a range inside the
   * register the closure's result modulo 2^width, and keeps every other bit
   * of the register.
   */
  lemma ArithmeticInRange(s: NumberState, r: BitsRange, op: Arith)
    requires s.Valid() && RangeOk(s, r) && ArithOk(op, Span(s, r))
    ensures var t := AfterArithmetic(s, r, op);
      t.Valid() && t.buffer < Pow2(s.effectiveBits) && !t.carry
      && t.effectiveBits == s.effectiveBits && t.isSigned == s.isSigned
      && t.numberType == s.numberType
    ensures var t := AfterArithmetic(s, r, op);
      High(s, r) < s.effectiveBits ==>
        Field(t.buffer, Low(s, r), Width(s, r)) == Apply(op, GetBits(s, r), Span(s, r)) % Pow2(Width(s, r))
    ensures var t := AfterArithmetic(s, r, op);
      forall i: nat :: i < s.effectiveBits && (i < Low(s, r) || High(s, r) < i) ==>
        (Bit(t.buffer, i) <==> Bit(s.buffer, i))
  {
    var l, w, eb := Low(s, r), Width(s, r), s.effectiveBits;
    var f := Field(s.buffer, l, w);
    Pow2Le(w, 128);
    var v := Apply(op, f, Span(s, r));
    var y := WithField(s.buffer, l, w, v);
    Pow2Le(eb, 128);
    ModLess(y % Pow2(eb), Pow2(128));
    if High(s, r) < eb {
      FieldOfLow(y, l, w, eb);
      FieldOfWithField(s.buffer, l, w, v);
    }
    forall i | i < eb && (i < l || l + w <= i)
      ensures Bit(y % Pow2(eb), i) <==> Bit(s.buffer, i)
    {
      BitOfMod(y, i, eb);
      WithFieldKeepsOtherBits(s.buffer, l, w, v, i);
    }
  }

  /** The closures whose result does not depend on the width of the range. */
  predicate WidthFree(op: Arith)
  {
    !(op.RotateLeftBy? || op.RotateRightBy? || op.ReverseBits?)
  }

  /**
   * A ranged operation whose closure ignores the width acts on a range
   * running past bit 127 as on the range from its low end to bit 127.
   */
  lemma ArithmeticPastTheWord(s: NumberState, r: BitsRange, op: Arith)
    requires s.Valid() && RangeOk(s, r) && 128 <= High(s, r) && ArithOk(op, Span(s, r)) && WidthFree(op)
    ensures var c := BitsRange(Indexed(127), r.low);
      RangeOk(s, c) && ArithOk(op, Span(s, c)) && AfterArithmetic(s, c, op) == AfterArithmetic(s, r, op)
  {
    var c := BitsRange(Indexed(127), r.low);
    RangePastTheWord(s, r, 0);
    var f := Field(s.buffer, Low(s, r), Width(s, r));
    Pow2Le(Width(s, r), 128);
    assert Apply(op, f, Span(s, c)) == Apply(op, f, Span(s, r));
  }

  /** 0xffff00 plus one in [23:8] wraps the 16-bit range to zero. */
  lemma AddWrapsInRange()
    ensures var s := NumberState(0xff_ff00, 32, Integer, false, false);
      var r := BitsRange(Indexed(23), Indexed(8));
      RangeOk(s, r) && s.Valid() && AfterArithmetic(s, r, AddBy(1)).buffer == 0
  {
    var s := NumberState(0xff_ff00, 32, Integer, false, false);
    var r := BitsRange(Indexed(23), Indexed(8));
    Pow2Words();
    Pow2Small();
    assert Pow2(24) == 0x100_0000 by { Pow2Add(16, 8); }
    assert Field(s.buffer, 8, 16) == 0xffff by { MulDiv(0xffff, 256, 0); ModLess(0xffff, Pow2(16)); }
    assert Apply(AddBy(1), 0xffff, 16) == 0x1_0000 by { ModLess(0x1_0000, Pow2(128)); }
    assert 0x1_0000 % Pow2(16) == 0 by { MulDiv(1, Pow2(16), 0); }
    MulDiv(0, 0x100_0000, 0);
    ModLess(0, Pow2(8));
    assert s.buffer % Pow2(8) == 0 by { MulDiv(0xffff, 256, 0); }
  }

  // ---------------------------------------------------------------------
  // Signedness
  // ---------------------------------------------------------------------

  /** The w-bit pattern f read as a two's-complement integer. */
  function ToSigned(f: nat, w: nat): int
    requires 1 <= w
  {
    if f >= Pow2(w - 1) then f - Pow2(w) else f
  }

  /** `is_negative` reads bit `effective_bits - 1`, which underflows on a signed zero-width register. */
  predicate SignReadable(s: NumberState)
  {
    s.isSigned ==> 1 <= s.effectiveBits <= 128
  }

  /** `is_negative`: a signed register whose top effective bit is set. */
  predicate IsNegative(s: NumberState)
    requires SignReadable(s)
  {
    s.isSigned && And(s.buffer, MaskNthBit(s.effectiveBits - 1)) != 0
  }

  /**
   * A register is negative exactly when it is signed and its top effective
   * bit is set; for a buffer within the effective bits, exactly when it is
   * signed and its two's-complement value is below zero.
   */
  lemma IsNegativeMeaning(s: NumberState)
    requires SignReadable(s)
    ensures IsNegative(s) <==> s.isSigned && Bit(s.buffer, s.effectiveBits - 1)
    ensures s.isSigned && s.buffer < Pow2(s.effectiveBits) ==>
      (IsNegative(s) <==> ToSigned(s.buffer, s.effectiveBits) < 0)
  {
    if s.isSigned {
      AndPow2(s.buffer, s.effectiveBits - 1);
      if s.buffer < Pow2(s.effectiveBits) {
        TopBit(s.buffer, s.effectiveBits);
      }
    }
  }

  /** The register after `convert(t, signed, size)`: new type, signedness and width, the buffer cut to the width. */
  function Converted(s: NumberState, t: NumberType, signed: bool, size: nat): NumberState
    requires size <= 128
  {
    s.(numberType := t, isSigned := signed, effectiveBits := size,
       buffer := And(s.buffer, MaskNOnesFromRight(size)))
  }

  /**
   * A conversion keeps exactly the low `size` bits of the buffer, so the
   * result is valid and fits its width, and converting again to the same
   * shape changes nothing.
   */
  lemma ConvertKeepsLowBits(s: NumberState, t: NumberType, signed: bool, size: nat)
    requires size <= 128
    ensures var c := Converted(s, t, signed, size);
      c.buffer == s.buffer % Pow2(size) && c.buffer < Pow2(size) && c.Valid()
      && c.carry == s.carry
    ensures var c := Converted(s, t, signed, size);
      forall i: nat :: i < size ==> (Bit(c.buffer, i) <==> Bit(s.buffer, i))
    ensures Converted(Converted(s, t, signed, size), t, signed, size) == Converted(s, t, signed, size)
  {
    var c := Converted(s, t, signed, size);
    var m := s.buffer % Pow2(size);
    AndLowMask(s.buffer, size);
    LowBits(s.buffer, size);
    Pow2Le(size, 128);
    AndLowMask(m, size);
    ModLess(m, Pow2(size));
  }

  /**
   * `negate` reads the whole register as an `i128` and negates it, which
   * overflows when the value read is the most negative `i128`.
   */
  predicate NegateOk(s: NumberState)
  {
    1 <= s.effectiveBits <= 128 && GetBits(s, Full) != Pow2(127)
  }

  /** The register after `negate`: signed, holding the negation of the value it read cut to the width. */
  function Negated(s: NumberState): NumberState
    requires NegateOk(s)
  {
    FullRange(s);
    s.(isSigned := true, buffer := NegatedBits(GetBits(s, Full), s.effectiveBits))
  }

  /** `((-(v as i128)) as u128) & mask_n_ones_from_right(eb)`. */
  function NegatedBits(v: nat, eb: nat): (y: nat)
    requires v < Pow2(128) && eb <= 128
    ensures y < Pow2(128)
  {
    var negated := (Pow2(128) - v) % Pow2(128);
    BitwiseBound(AndOp, negated, MaskNOnesFromRight(eb), 128);
    And(negated, MaskNOnesFromRight(eb))
  }

  /** Cut to eb bits, the negation of a v below 2^eb is zero for zero and 2^eb - v otherwise. */
  lemma NegatedBitsValue(v: nat, eb: nat)
    requires eb <= 128 && v < Pow2(eb)
    ensures Pow2(eb) <= Pow2(128)
    ensures NegatedBits(v, eb) == if v == 0 then 0 else Pow2(eb) - v
  {
    Pow2Le(eb, 128);
    var negated := (Pow2(128) - v) % Pow2(128);
    AndLowMask(negated, eb);
    NegatedLow(v, eb, 128);
  }

  /** The value read by `negate` is the buffer modulo 2^width. */
  lemma FullRange(s: NumberState)
    requires 1 <= s.effectiveBits <= 128
    ensures RangeOk(s, Full) && Low(s, Full) == 0 && Width(s, Full) == Span(s, Full) == s.effectiveBits
    ensures GetBits(s, Full) == s.buffer % Pow2(s.effectiveBits)
    ensures GetBits(s, Full) < Pow2(s.effectiveBits) <= Pow2(128)
  {
    assert Pow2(0) == 1;
    Pow2Le(s.effectiveBits, 128);
  }

  /**
   * Negation gives the width-bit two's complement of the value v it read
   * (zero stays zero, any other v becomes 2^width - v), so v plus the new
   * buffer is a multiple of 2^width; the register becomes signed and nothing
   * else changes.
   */
  lemma NegatedValue(s: NumberState)
    requires NegateOk(s)
    ensures var v, t := s.buffer % Pow2(s.effectiveBits), Negated(s);
      t.buffer == (if v == 0 then 0 else Pow2(s.effectiveBits) - v)
      && t.buffer < Pow2(s.effectiveBits) && (v + t.buffer) % Pow2(s.effectiveBits) == 0
    ensures var t := Negated(s);
      t.isSigned && t.effectiveBits == s.effectiveBits && t.numberType == s.numberType
      && t.carry == s.carry && t.Valid()
  {
    var eb := s.effectiveBits;
    NegatedBuffer(s);
    ghost var v, t, p := s.buffer % Pow2(eb), Negated(s), Pow2(eb);
    NegationSum(v, t.buffer, p);
  }

  /** v and its negation modulo p add up to a multiple of p. */
  lemma NegationSum(v: nat, b: nat, p: nat)
    requires v < p && b == (if v == 0 then 0 else p - v)
    ensures b < p && (v + b) % p == 0
  {
    MulDiv(1, p, 0);
    MulDiv(0, p, 0);
  }

  lemma NegatedBuffer(s: NumberState)
    requires NegateOk(s)
    ensures var v := s.buffer % Pow2(s.effectiveBits);
      Negated(s).buffer == if v == 0 then 0 else Pow2(s.effectiveBits) - v
  {
    FullRange(s);
    NegatedBitsValue(GetBits(s, Full), s.effectiveBits);
  }

  /** The n-bit negation of a v below 2^eb, reduced to eb bits. */
  lemma NegatedLow(v: nat, eb: nat, n: nat)
    requires eb <= n && v < Pow2(eb)
    ensures ((Pow2(n) - v) % Pow2(n)) % Pow2(eb) == if v == 0 then 0 else Pow2(eb) - v
  {
    Pow2Sub(eb, n);
    NegMod(v, Pow2(eb), Pow2(n - eb), Pow2(n));
  }

  /** For 0 <= v < p dividing t: `((t - v) mod t) mod p` is zero for v = 0 and p - v otherwise. */
  lemma NegMod(v: int, p: int, q: int, t: int)
    requires 0 <= v < p && q >= 1 && t == p * q
    ensures ((t - v) % t) % p == if v == 0 then 0 else p - v
  {
    MulSign(q, p);
    if v == 0 {
      DivModUnique(t, t, 1, 0);
      DivModUnique(0, p, 0, 0);
    } else {
      DivModUnique(t - v, t, 0, t - v);
      assert t - v == (q - 1) * p + (p - v);
      DivModUnique(t - v, p, q - 1, p - v);
    }
  }

  /** Negating twice restores the value: the second negation never overflows. */
  lemma NegateTwice(s: NumberState)
    requires NegateOk(s)
    ensures NegateOk(Negated(s))
    ensures Negated(Negated(s)).buffer == s.buffer % Pow2(s.effectiveBits)
  {
    var eb := s.effectiveBits;
    var p := Pow2(eb);
    var v := s.buffer % p;
    var t := Negated(s);
    NegatedValue(s);
    var u := t.buffer;
    FullRange(s);
    FullRange(t);
    ModLess(u, p);
    if eb == 128 {
      Pow2Sub(127, 128);
      assert Pow2(1) == 2;
    } else {
      Pow2Le(eb, 127);
    }
    assert NegateOk(t);
    NegatedValue(t);
  }

  /**
   * Negation negates the two's-complement value, except for the most
   * negative value of the width, which stays as it is.
   */
  lemma NegateSigned(s: NumberState)
    requires NegateOk(s)
    ensures var v, t := s.buffer % Pow2(s.effectiveBits), Negated(s);
      ToSigned(t.buffer, s.effectiveBits)
        == if v == Pow2(s.effectiveBits - 1) then ToSigned(v, s.effectiveBits) else -ToSigned(v, s.effectiveBits)
  {
    var eb := s.effectiveBits;
    NegatedValue(s);
    Pow2Sub(eb - 1, eb);
    assert Pow2(1) == 2;
  }

  // ---------------------------------------------------------------------
  // Sign extension
  // ---------------------------------------------------------------------

  /**
   * `signed_extend_to` shifts by `128 - leading_zeros`, which panics for a
   * negative register whose bit 127 is set (a shift by 128).
   */
  predicate SignExtendOk(s: NumberState)
  {
    s.Valid() && SignReadable(s) && (IsNegative(s) ==> BitLength(s.buffer) < 128)
  }

  /**
   * The register after `signed_extend_to(n)`: a negative register gets every
   * leading zero of its buffer set; the width becomes n in any case.
   */
  function SignExtended(s: NumberState, n: nat): NumberState
    requires SignExtendOk(s)
  {
    if IsNegative(s) then
      s.(buffer := FilledLeadingZeros(s.buffer), effectiveBits := n)
    else
      s.(effectiveBits := n)
  }

  /**
   * `x | (mask_n_ones_from_right(lz) << (128 - lz))` for the `lz` leading
   * zeros of x; `128 - lz` is the number b of significant bits of x.
   */
  function FilledLeadingZeros(x: nat): (y: nat)
    requires x < Pow2(128) && BitLength(x) < 128
    ensures y < Pow2(128)
  {
    var b := BitLength(x);
    BitwiseBound(OrOp, x, Shl(MaskNOnesFromRight(128 - b), b), 128);
    Or(x, Shl(MaskNOnesFromRight(128 - b), b))
  }

  /** `mask_n_ones_from_right(128 - b) << b` sets the bits from b up to 127. */
  lemma HighOnes(b: nat)
    requires b < 128
    ensures Shl(MaskNOnesFromRight(128 - b), b) == Pow2(128) - Pow2(b)
  {
    ShlOnes(MaskNOnesFromRight(128 - b), b, 128, 128, Pow2(128) - Pow2(b));
  }

  /** Filling the leading zeros adds 2^128 - 2^b for the b significant bits of x. */
  lemma FilledLeadingZerosValue(x: nat)
    requires x < Pow2(128) && BitLength(x) < 128
    ensures FilledLeadingZeros(x) == x + Pow2(128) - Pow2(BitLength(x)) < Pow2(128)
  {
    var b := BitLength(x);
    var m := Pow2(128) - Pow2(b);
    assert Shl(MaskNOnesFromRight(128 - b), b) == m by { HighOnes(b); }
    assert Or(x, m) == x + m by {
      BitLengthBounds(x);
      Pow2Le(b, 128);
      OrHigh(x, b, 128, m);
    }
    BitLengthBounds(x);
  }

  /**
   * For a negative register of width eb, the filled buffer reduced to any
   * width n >= eb is the n-bit pattern of the same negative value.
   */
  lemma ExtendNegative(x: nat, eb: nat, n: nat)
    requires 1 <= eb <= n <= 128 && eb < 128 && Pow2(eb - 1) <= x < Pow2(eb)
    ensures x < Pow2(128) && BitLength(x) == eb
    ensures FilledLeadingZeros(x) % Pow2(n) == x + Pow2(n) - Pow2(eb)
  {
    BitLengthExact(x, eb);
    Pow2Le(eb, 128);
    FilledLeadingZerosValue(x);
    ExtendMod(FilledLeadingZeros(x), x, eb, n, 128);
  }

  /**
   * Sign extension keeps the signed value: a signed register whose buffer
   * fits its width eb, widened to n, reads as the same two's-complement
   * value at width n; a register that is not negative keeps its buffer.
   */
  lemma SignExtendKeepsValue(s: NumberState, n: nat)
    requires SignExtendOk(s) && s.buffer < Pow2(s.effectiveBits) && s.effectiveBits <= n <= 128
    ensures var t := SignExtended(s, n);
      t.Valid() && t.effectiveBits == n && t.isSigned == s.isSigned
      && t.numberType == s.numberType && t.carry == s.carry
    ensures !IsNegative(s) ==> SignExtended(s, n).buffer == s.buffer
    ensures s.isSigned ==>
      ToSigned(SignExtended(s, n).buffer % Pow2(n), n) == ToSigned(s.buffer, s.effectiveBits)
  {
    var eb := s.effectiveBits;
    if IsNegative(s) {
      NegativeExtended(s, n);
    } else if s.isSigned {
      IsNegativeMeaning(s);
      Pow2Le(eb, n);
      ModLess(s.buffer, Pow2(n));
      SignedWidenPositive(s.buffer, eb, n);
    }
  }

  lemma NegativeExtended(s: NumberState, n: nat)
    requires SignExtendOk(s) && IsNegative(s) && s.buffer < Pow2(s.effectiveBits) && s.effectiveBits <= n <= 128
    ensures SignExtended(s, n).Valid()
    ensures ToSigned(SignExtended(s, n).buffer % Pow2(n), n) == ToSigned(s.buffer, s.effectiveBits)
  {
    var x, eb := s.buffer, s.effectiveBits;
    assert Pow2(eb - 1) <= x by {
      IsNegativeMeaning(s);
      TopBit(x, eb);
    }
    BitLengthExact(x, eb);
    ExtendNegative(x, eb, n);
    var y := SignExtended(s, n).buffer;
    assert y == FilledLeadingZeros(x);
    FilledLeadingZerosValue(x);
    SignedWidenNegative(x, y % Pow2(n), eb, n);
  }

  /** A negative eb-bit pattern with ones filled in up to bit n - 1 has the same value at width n. */
  lemma SignedWidenNegative(x: nat, v: nat, eb: nat, n: nat)
    requires 1 <= eb <= n && Pow2(eb - 1) <= x < Pow2(eb) && v == x + Pow2(n) - Pow2(eb)
    ensures ToSigned(v, n) == ToSigned(x, eb)
  {
    Pow2Le(eb - 1, n - 1);
    Pow2Sub(eb - 1, eb);
    Pow2Sub(n - 1, n);
    assert Pow2(1) == 2;
  }

  /** A non-negative eb-bit pattern has the same value at any width n >= eb. */
  lemma SignedWidenPositive(x: nat, eb: nat, n: nat)
    requires 1 <= eb <= n && x < Pow2(eb - 1)
    ensures ToSigned(x, n) == ToSigned(x, eb)
  {
    Pow2Le(eb - 1, n - 1);
  }

  // ---------------------------------------------------------------------
  // Arithmetic shift right
  // ---------------------------------------------------------------------

  /**
   * `signed_shift_right` shifts by count, and when the sign bit of the range
   * is set also by width - count, which must not underflow or reach 128.
   * (The range's bits are below 2^width, so the sign bit is set exactly when
   * they are at least 2^(width-1); the lemma TopBit states it.)
   */
  predicate SignedShiftRightOk(s: NumberState, r: BitsRange, count: nat)
  {
    s.Valid() && RangeOk(s, r) && count < 128
    && (Pow2(Span(s, r) - 1) <= GetBits(s, r) ==> count <= Span(s, r) && Span(s, r) - count < 128)
  }

  /**
   * The register after `signed_shift_right(r, count)`: the range is read,
   * cleared, and or-ed with its shifted bits, the vacated bits taking the
   * range's top bit. The sign bit is bit `high - low` of the range, which
   * lies past the u128 when the range does. The buffer is not cut to the
   * effective bits.
   */
  function SignedShiftedRight(s: NumberState, r: BitsRange, count: nat): NumberState
    requires SignedShiftRightOk(s, r, count)
  {
    s.(buffer := ShiftRangeBits(s.buffer, Low(s, r), Width(s, r), Span(s, r), count))
  }

  /**
   * A range from bit l of nominal width n whose w bits inside the u128 are
   * all of it, or reach bit 127.
   */
  predicate CutRange(l: nat, w: nat, n: nat)
  {
    1 <= w <= n <= 128 && l + w <= 128 && (w < n ==> l + w == 128)
  }

  /** The buffer x after the arithmetic shift of the range from bit l of nominal width n, w bits of it in the u128. */
  function ShiftRangeBits(x: nat, l: nat, w: nat, n: nat, count: nat): (y: nat)
    requires x < Pow2(128) && CutRange(l, w, n) && count < 128
    requires Pow2(n - 1) <= Field(x, l, w) ==> count <= n && n - count < 128
    ensures y < Pow2(128)
  {
    var mask := Shl(MaskNOnesFromRight(n), l);
    RangeMask(l, w, n);
    MaskedRead(x, l, w);
    var bits := Shr(And(x, mask), l);
    Pow2Le(w, n);
    var cleared := And(x, Not128(mask));
    BitwiseBound(AndOp, x, Not128(mask), 128);
    BitwiseBound(OrOp, cleared, Shl(ShiftedField(bits, n, count), l), 128);
    Or(cleared, Shl(ShiftedField(bits, n, count), l))
  }

  /** `mask_n_ones_from_right(n) << l` is the mask of the w bits of the range inside the u128. */
  lemma RangeMask(l: nat, w: nat, n: nat)
    requires CutRange(l, w, n)
    ensures Shl(MaskNOnesFromRight(n), l) == MaskFromBitToBit(l + w - 1, l) == (Pow2(w) - 1) * Pow2(l)
  {
    ShiftedOnes(MaskNOnesFromRight(n), l, w, n);
  }

  /** m = 2^n - 1 shifted up by l keeps the w ones that stay inside the u128. */
  lemma ShiftedOnes(m: nat, l: nat, w: nat, n: nat)
    requires CutRange(l, w, n) && m == Pow2(n) - 1
    ensures Shl(m, l) == (Pow2(w) - 1) * Pow2(l)
  {
    if w < n {
      OnesPastTheWord(m, l, w, n);
    } else {
      OnesInTheWord(m, l, w);
    }
  }

  lemma OnesInTheWord(m: nat, l: nat, w: nat)
    requires l < 128 && l + w <= 128 && m == Pow2(w) - 1
    ensures Shl(m, l) == (Pow2(w) - 1) * Pow2(l)
  {
    ShlFits(m, l, w);
  }

  lemma OnesPastTheWord(m: nat, l: nat, w: nat, n: nat)
    requires w <= n && l < 128 && l + w == 128 && m == Pow2(n) - 1
    ensures Shl(m, l) == (Pow2(w) - 1) * Pow2(l)
  {
    ShlKeepsLow(m, l, w);
    OnesModOf(m, n, w);
  }

  lemma OnesModOf(m: nat, n: nat, k: nat)
    requires k <= n && m == Pow2(n) - 1
    ensures m % Pow2(k) == Pow2(k) - 1
  {
    OnesMod(n, k);
  }

  /** `left_bits | (bits >> count) & mask_n_ones_from_right(w)` for the w-bit field `bits`. */
  function ShiftedField(bits: nat, w: nat, count: nat): nat
    requires 1 <= w <= 128 && count < 128 && bits < Pow2(w)
    requires Pow2(w - 1) <= bits ==> count <= w && w - count < 128
  {
    Or(SignFill(bits, w, count), And(Shr(bits, count), MaskNOnesFromRight(w)))
  }

  /** `left_bits`: count ones below bit w when the top bit of the field is set. */
  function SignFill(bits: nat, w: nat, count: nat): nat
    requires 1 <= w <= 128 && count < 128 && bits < Pow2(w)
    requires Pow2(w - 1) <= bits ==> count <= w && w - count < 128
  {
    SignBitSet(bits, w);
    if And(bits, MaskNthBit(w - 1)) != 0 then Shl(MaskNOnesFromRight(count), w - count) else 0
  }

  /** `bits & mask_nth_bit(w - 1) != 0` tests the top bit of a w-bit field. */
  lemma SignBitSet(bits: nat, w: nat)
    requires 1 <= w <= 128 && bits < Pow2(w)
    ensures And(bits, MaskNthBit(w - 1)) != 0 <==> Pow2(w - 1) <= bits
  {
    AndPow2At(bits, w - 1, MaskNthBit(w - 1));
    TopBit(bits, w);
  }

  /**
   * The w-bit f shifted right by c, the c vacated top bits copying its top
   * bit (bits w - c up to w - 1 set: 2^w - 2^(w-c)).
   */
  function ArithmeticShift(f: nat, w: nat, c: nat): nat
    requires 1 <= w && (Pow2(w - 1) <= f ==> c <= w)
  {
    DivNat(f, Pow2(c));
    if Pow2(w - 1) <= f then Pow2Le(w - c, w); Pow2(w) - Pow2(w - c) + f / Pow2(c) else f / Pow2(c)
  }

  /** The source's bit operations on the field compute the arithmetic shift, a w-bit value. */
  lemma ShiftedFieldValue(f: nat, w: nat, c: nat)
    requires f < Pow2(w) && 1 <= w <= 128 && c < 128
    requires Pow2(w - 1) <= f ==> c <= w && w - c < 128
    ensures ShiftedField(f, w, c) == ArithmeticShift(f, w, c) < Pow2(w)
  {
    if Pow2(w - 1) <= f {
      NegativeField(f, w, c);
    } else {
      PositiveField(f, w, c);
    }
  }

  lemma NegativeField(f: nat, w: nat, c: nat)
    requires f < Pow2(w) && 1 <= w <= 128 && c <= w && c < 128 && w - c < 128 && Pow2(w - 1) <= f
    ensures ShiftedField(f, w, c) == Pow2(w) - Pow2(w - c) + f / Pow2(c) < Pow2(w)
  {
    ShiftedLow(f, w, c);
    NegativeFill(f, w, c);
    DivBound(f, c, w);
    OrSignFill(f / Pow2(c), w, c, Pow2(w) - Pow2(w - c));
  }

  /** For a negative field, `left_bits` sets bits w - c up to w - 1. */
  lemma NegativeFill(f: nat, w: nat, c: nat)
    requires f < Pow2(w) && 1 <= w <= 128 && c <= w && c < 128 && w - c < 128 && Pow2(w - 1) <= f
    ensures SignFill(f, w, c) == Pow2(w) - Pow2(w - c)
  {
    SignBitSet(f, w);
    assert Shl(MaskNOnesFromRight(c), w - c) == Pow2(w) - Pow2(w - c) by {
      ShlOnes(MaskNOnesFromRight(c), w - c, w, 128, Pow2(w) - Pow2(w - c));
    }
  }

  lemma PositiveField(f: nat, w: nat, c: nat)
    requires f < Pow2(w) && 1 <= w <= 128 && c < 128 && f < Pow2(w - 1)
    ensures ShiftedField(f, w, c) == f / Pow2(c) < Pow2(w)
  {
    ShiftedLow(f, w, c);
    SignBitSet(f, w);
    BitwiseZeroLeft(OrOp, f / Pow2(c));
  }

  /** `(bits >> c) & mask_n_ones_from_right(w)` is the quotient, for a w-bit field. */
  lemma ShiftedLow(f: nat, w: nat, c: nat)
    requires f < Pow2(w) && w <= 128 && c < 128
    ensures 0 <= f / Pow2(c) < Pow2(w)
    ensures And(Shr(f, c), MaskNOnesFromRight(w)) == f / Pow2(c)
  {
    var low := f / Pow2(c);
    DivNat(f, Pow2(c));
    AndLowMask(low, w);
    ModLess(low, Pow2(w));
  }

  /** Or-ing the sign fill onto a quotient below 2^(w-c) adds them, staying below 2^w. */
  lemma OrSignFill(low: nat, w: nat, c: nat, left: nat)
    requires c <= w && low < Pow2(w - c) && left == Pow2(w) - Pow2(w - c)
    ensures Or(left, low) == left + low < Pow2(w)
  {
    BitwiseComm(OrOp, left, low);
    OrHigh(low, w - c, w, left);
  }

  /**
   * The arithmetic shift divides the two's-complement value by 2^c,
   * rounding toward negative infinity.
   */
  lemma ArithmeticShiftDivides(f: nat, w: nat, c: nat)
    requires f < Pow2(w) && 1 <= w && (Pow2(w - 1) <= f ==> c <= w)
    ensures ToSigned(ArithmeticShift(f, w, c), w) == ToSigned(f, w) / Pow2(c)
  {
    if Pow2(w - 1) <= f {
      NegativeShift(f, w, c);
    } else {
      DivNat(f, Pow2(c));
      DivModUnique(f, Pow2(c), f / Pow2(c), f % Pow2(c));
      MulLe(Pow2(c), f / Pow2(c), f);
    }
  }

  lemma NegativeShift(f: nat, w: nat, c: nat)
    requires f < Pow2(w) && 1 <= w && c <= w && Pow2(w - 1) <= f
    ensures ToSigned(ArithmeticShift(f, w, c), w) == ToSigned(f, w) / Pow2(c)
  {
    DivNat(f, Pow2(c));
    Pow2Add(w - c, c);
    Pow2Sub(w - 1, w);
    assert Pow2(1) == 2;
    if c >= 1 {
      Pow2Le(w - c, w - 1);
    }
    assert c == 0 ==> Pow2(c) == 1 && Pow2(w - c) == Pow2(w);
    DivModSplit(f, Pow2(c));
    NegativeShiftFacts(f, w, c, f / Pow2(c), f % Pow2(c));
  }

  lemma NegativeShiftFacts(f: nat, w: nat, c: nat, q: nat, r: nat)
    requires f < Pow2(w) && 1 <= w && c <= w && Pow2(w - 1) <= f
    requires q == f / Pow2(c) && f == q * Pow2(c) + r && r < Pow2(c)
    requires Pow2(w) == Pow2(w - c) * Pow2(c) && Pow2(w) == 2 * Pow2(w - 1)
    requires Pow2(w - c) <= Pow2(w - 1) || (Pow2(c) == 1 && Pow2(w - c) == Pow2(w))
    ensures ToSigned(ArithmeticShift(f, w, c), w) == ToSigned(f, w) / Pow2(c)
  {
    NegativeShiftAlgebra(f, q, r, Pow2(c), Pow2(w - c), Pow2(w), Pow2(w - 1));
  }

  lemma NegativeShiftAlgebra(f: int, q: int, r: int, pc: int, pwc: int, pw: int, h: int)
    requires pc > 0 && q >= 0 && f == q * pc + r && 0 <= r < pc && pw == pwc * pc
    requires h <= f < pw && pw == 2 * h && (pwc <= h || (pc == 1 && pwc == pw))
    ensures pw - pwc + q >= h && pw - pwc + q - pw == (f - pw) / pc
  {
    assert (q - pwc) * pc == q * pc - pwc * pc;
    DivModUnique(f - pw, pc, q - pwc, r);
    if pc == 1 {
      assert q * pc == q;
    }
  }

  /**
   * `signed_shift_right` writes the arithmetic shift of the range back into
   * the range and changes nothing else.
   */
  lemma SignedShiftRightValue(s: NumberState, r: BitsRange, count: nat)
    requires SignedShiftRightOk(s, r, count)
    ensures var l, w := Low(s, r), Width(s, r);
      SignedShiftedRight(s, r, count)
        == s.(buffer := WithField(s.buffer, l, w, ArithmeticShift(GetBits(s, r), Span(s, r), count)))
  {
    ShiftRangeBitsValue(s.buffer, Low(s, r), Width(s, r), Span(s, r), count);
  }

  lemma ShiftRangeBitsValue(x: nat, l: nat, w: nat, n: nat, count: nat)
    requires x < Pow2(128) && CutRange(l, w, n) && count < 128
    requires Pow2(n - 1) <= Field(x, l, w) ==> count <= n && n - count < 128
    ensures ArithmeticShift(Field(x, l, w), n, count) < Pow2(w)
    ensures ShiftRangeBits(x, l, w, n, count) == WithField(x, l, w, ArithmeticShift(Field(x, l, w), n, count))
  {
    var f := Field(x, l, w);
    var mask := Shl(MaskNOnesFromRight(n), l);
    assert Shr(And(x, mask), l) == f by {
      RangeMask(l, w, n);
      MaskedRead(x, l, w);
    }
    Pow2Le(w, n);
    var v := ArithmeticShift(f, n, count);
    assert ShiftedField(f, n, count) == v < Pow2(w) by {
      ShiftedFieldValue(f, n, count);
      if w < n {
        Pow2Le(w, n - 1);
        DivNat(f, Pow2(count));
      }
    }
    RangeMask(l, w, n);
    InsertShifted(x, l, w, v, mask);
  }

  /** Clearing the field [l, l + w) and or-ing in v << l writes v there. */
  lemma InsertShifted(x: nat, l: nat, w: nat, v: nat, mask: nat)
    requires x < Pow2(128) && 1 <= w && l + w <= 128 && v < Pow2(w)
    requires mask == (Pow2(w) - 1) * Pow2(l)
    ensures mask < Pow2(128)
    ensures Or(And(x, Not128(mask)), Shl(v, l)) == WithField(x, l, w, v)
  {
    assert mask < Pow2(128) && And(x, Not128(mask)) == WithField(x, l, w, 0) by {
      ClearField(x, l, w);
    }
    assert Shl(v, l) == v * Pow2(l) by {
      Pow2Le(w, 128 - l);
      ShlNoLoss(v, l);
    }
    OrIntoClearedField(x, l, w, v);
  }

  /**
   * After `signed_shift_right` the register is valid, the range holds its
   * old two's-complement value divided by 2^count (rounding down), and
   * every bit outside the range is unchanged.
   */
  lemma SignedShiftRightDivides(s: NumberState, r: BitsRange, count: nat)
    requires SignedShiftRightOk(s, r, count)
    ensures var t := SignedShiftedRight(s, r, count);
      t.Valid() && RangeOk(t, r) && Low(t, r) == Low(s, r) && Width(t, r) == Width(s, r)
      && Span(t, r) == Span(s, r)
    ensures var t := SignedShiftedRight(s, r, count);
      ToSigned(GetBits(t, r), Span(s, r)) == ToSigned(GetBits(s, r), Span(s, r)) / Pow2(count)
    ensures var t := SignedShiftedRight(s, r, count);
      forall i: nat :: (i < Low(s, r) || High(s, r) < i) ==> (Bit(t.buffer, i) <==> Bit(s.buffer, i))
  {
    var l, w := Low(s, r), Width(s, r);
    ShiftRangeBitsDivides(s.buffer, l, w, Span(s, r), count);
    SameIndexing(s, SignedShiftedRight(s, r, count), r);
  }

  /** `ShiftRangeBits` on buffers: the value the signed field holds, and the bits it keeps. */
  lemma ShiftRangeBitsDivides(x: nat, l: nat, w: nat, n: nat, count: nat)
    requires x < Pow2(128) && CutRange(l, w, n) && count < 128
    requires Pow2(n - 1) <= Field(x, l, w) ==> count <= n && n - count < 128
    ensures ShiftRangeBits(x, l, w, n, count) < Pow2(128)
    ensures ToSigned(Field(ShiftRangeBits(x, l, w, n, count), l, w), n) == ToSigned(Field(x, l, w), n) / Pow2(count)
    ensures forall i: nat :: (i < l || l + w <= i) ==> (Bit(ShiftRangeBits(x, l, w, n, count), i) <==> Bit(x, i))
  {
    var f := Field(x, l, w);
    var v := ArithmeticShift(f, n, count);
    ShiftRangeBitsValue(x, l, w, n, count);
    WithFieldBound(x, l, w, v, 128);
    assert Field(WithField(x, l, w, v), l, w) == v by {
      FieldOfWithField(x, l, w, v);
      ModLess(v, Pow2(w));
    }
    Pow2Le(w, n);
    ArithmeticShiftDivides(f, n, count);
    WithFieldOutside(x, l, w, v);
  }

  // ---------------------------------------------------------------------
  // Counting bits
  // ---------------------------------------------------------------------

  /**
   * `range_count_bits(r, which)` panics for zeros on a 128-bit range: the
   * helper mask is `mask_n_ones_from_right(0) << 128`.
   */
  predicate CountBitsOk(s: NumberState, r: BitsRange, which: nat)
  {
    RangeOk(s, r) && (which == 0 ==> Span(s, r) < 128)
  }

  /**
   * `range_count_bits(r, which)`: zeros are counted in the range's bits
   * with everything from bit `high - low + 1` up set, ones in the range's
   * bits masked to that width, and any other selector gives `usize::MAX`.
   */
  function CountBits(s: NumberState, r: BitsRange, which: nat): nat
    requires CountBitsOk(s, r, which)
  {
    var n, bits := Span(s, r), GetBits(s, r);
    if which == 0 then
      128 - Ones(Or(bits, MaskFromBitToBit(127, n)), 128)
    else if which == 1 then
      Ones(And(bits, MaskNOnesFromRight(n)), 128)
    else
      USIZE_MAX
  }

  /**
   * The count of ones is the number of set bits of the range, the count of
   * zeros the number of its clear bits, which is the count of ones of its
   * complement; the two add up to `high - low + 1`. (Bits of a range past
   * bit 127 read as zeros.)
   */
  lemma CountBitsValue(s: NumberState, r: BitsRange, which: nat)
    requires CountBitsOk(s, r, which)
    ensures which == 1 ==> CountBits(s, r, which) == Ones(GetBits(s, r), Span(s, r))
    ensures which == 0 ==> CountBits(s, r, which) == Span(s, r) - Ones(GetBits(s, r), Span(s, r))
    ensures which == 0 ==> CountBits(s, r, which) == Ones(Pow2(Span(s, r)) - 1 - GetBits(s, r), Span(s, r))
    ensures which > 1 ==> CountBits(s, r, which) == USIZE_MAX
  {
    var n, f := Span(s, r), GetBits(s, r);
    CountedBits(f, n, which, CountBits(s, r, which));
  }

  lemma CountedBits(f: nat, n: nat, which: nat, c: nat)
    requires f < Pow2(n) && n <= 128 && (which == 0 ==> n < 128)
    requires c == if which == 0 then 128 - Ones(Or(f, MaskFromBitToBit(127, n)), 128)
                  else if which == 1 then Ones(And(f, MaskNOnesFromRight(n)), 128)
                  else USIZE_MAX
    ensures which == 1 ==> c == Ones(f, n)
    ensures which == 0 ==> c == n - Ones(f, n) == Ones(Pow2(n) - 1 - f, n)
  {
    if which == 0 {
      ZerosCounted(f, n);
    } else if which == 1 {
      OnesCounted(f, n);
    }
  }

  lemma ZerosCounted(f: nat, w: nat)
    requires f < Pow2(w) && w < 128
    ensures 128 - Ones(Or(f, MaskFromBitToBit(127, w)), 128) == w - Ones(f, w)
    ensures w - Ones(f, w) == Ones(Pow2(w) - 1 - f, w)
  {
    OnesOfFilled(f, w, 128, Pow2(128 - w) - 1, MaskFromBitToBit(127, w));
    OnesOfComplement(f, w);
  }

  lemma OnesCounted(f: nat, w: nat)
    requires f < Pow2(w) && w <= 128
    ensures Ones(And(f, MaskNOnesFromRight(w)), 128) == Ones(f, w)
  {
    AndLowMask(f, w);
    ModLess(f, Pow2(w));
    Pow2Le(w, 128);
    OnesOfNarrow(f, w, 128);
  }

  /** Every bit of a range is either counted as a one or as a zero. */
  lemma CountsAddUp(s: NumberState, r: BitsRange)
    requires CountBitsOk(s, r, 0)
    ensures CountBits(s, r, 0) + CountBits(s, r, 1) == Span(s, r)
  {
    CountBitsValue(s, r, 0);
    CountBitsValue(s, r, 1);
  }
}
