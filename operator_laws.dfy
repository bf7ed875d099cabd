// What the handlers of src/operators.rs do to the register, stated on the
// functions the handler methods of module Operators are proved against.
module OperatorLaws {
  import opened Bits
  import opened Results
  import opened Numbers
  import Syntax
  import opened Operators

  // ---------------------------------------------------------------------
  // The second operand of the binary handlers
  // ---------------------------------------------------------------------

  /**
   * A literal is sign-extended to the register's width before it is used:
   * read whole at that width, a literal that is not negative is its own
   * buffer, a negative one gains ones above its width, and a signed
   * literal keeps its two's-complement value.
   */
  lemma LiteralOperand(s: NumberState, t: BitsRange, n: NumberState)
    requires s.Valid() && OperandOk(s, Syntax.LeftRange(t), Syntax.Direct(n))
    requires n.buffer < Pow2(n.effectiveBits) && n.effectiveBits <= s.effectiveBits
    ensures 1 <= s.effectiveBits
    ensures var v := SecondOperand(s, Syntax.LeftRange(t), Syntax.Direct(n));
      v < Pow2(s.effectiveBits)
      && (!IsNegative(n) ==> v == n.buffer)
      && (IsNegative(n) ==> v == n.buffer + Pow2(s.effectiveBits) - Pow2(n.effectiveBits))
      && (n.isSigned ==> ToSigned(v, s.effectiveBits) == ToSigned(n.buffer, n.effectiveBits))
  {
    var e := SignExtended(n, s.effectiveBits);
    SignExtendKeepsValue(n, s.effectiveBits);
    FullRange(e);
    var v := SecondOperand(s, Syntax.LeftRange(t), Syntax.Direct(n));
    assert v == e.buffer % Pow2(s.effectiveBits);
    if !IsNegative(n) {
      Pow2Le(n.effectiveBits, s.effectiveBits);
      ModLess(n.buffer, Pow2(s.effectiveBits));
    } else {
      IsNegativeMeaning(n);
    }
  }

  /** The literal zero is read as zero, whatever the register's width. */
  lemma ZeroOperand(s: NumberState, t: BitsRange, n: NumberState)
    requires OperandOk(s, Syntax.LeftRange(t), Syntax.Direct(n)) && n.buffer == 0
    ensures SecondOperand(s, Syntax.LeftRange(t), Syntax.Direct(n)) == 0
  {
    if n.isSigned {
      BitwiseZeroLeft(AndOp, MaskNthBit(n.effectiveBits - 1));
    }
    var e := SignExtended(n, s.effectiveBits);
    assert e.buffer == 0;
    var l, w := Low(e, Full), Width(e, Full);
    ModLess(0, Pow2(l));
    ModLess(0, Pow2(w));
    assert Field(0, l, w) == 0;
  }

  /**
   * A zero divisor is refused with the message of its kind, a literal zero
   * or a source range whose bits are all zero, and the register is left
   * alone.
   */
  lemma DivisionByZeroRefused(s: NumberState, t: BitsRange, right: Syntax.RightOperandSource)
    requires BinaryOk(Syntax.Div, s, Syntax.LeftRange(t), right)
    requires (right.Direct? && right.number.buffer == 0)
          || (right.RightRange? && GetBits(s, right.range) == 0)
    ensures right.Direct? ==>
      Binary(Syntax.Div, s, Syntax.LeftRange(t), right) == Outcome(Err("Cannot divide by 0"), s)
    ensures right.RightRange? ==>
      Binary(Syntax.Div, s, Syntax.LeftRange(t), right)
        == Outcome(Err("There are only 0 bits in given range, cannot divide by 0"), s)
  {
    if right.Direct? {
      ZeroOperand(s, t, right.number);
    }
  }

  /**
   * Without a second operand every binary handler but `pow` is refused
   * and leaves the register alone.
   */
  lemma NoSecondOperandRefused(op: Syntax.Operator, s: NumberState, left: Syntax.LeftOperandSource)
    requires BinaryOk(op, s, left, Syntax.Empty) && !op.Pow?
    ensures Binary(op, s, left, Syntax.Empty) == Outcome(Err("No second operand!"), s)
  {
  }

  /** `root` without a second operand asks for the square root of the target range. */
  lemma RootDefaultSquare(s: NumberState, t: BitsRange)
    requires OperandOk(s, Syntax.LeftRange(t), Syntax.Empty)
    ensures RootRequest(s, Syntax.LeftRange(t), Syntax.Empty) == Some((t, 2))
  {
  }

  /** Squaring a w-bit value with `wrapping_pow(2)` and cutting to w bits is the square modulo 2^w. */
  lemma SquareWithinRange(f: nat, w: nat)
    requires f < Pow2(128) && w <= 128
    ensures ArithOk(PowerBy(2), w)
    ensures Apply(PowerBy(2), f, w) % Pow2(w) == (f * f) % Pow2(w)
  {
    Pow2Small();
    Pow2Lt(1, 128);
    WrapsWithinRange(PowerBy(2), f, w);
    Pow2Lt(2, 32);
    ModLess(2, Pow2(32));
    PowerTwo(f);
  }

  lemma PowerTwo(a: nat)
    ensures Power(a, 2) == a * a
  {
    assert Power(a, 1) == a * Power(a, 0) == a;
    assert Power(a, 2) == a * Power(a, 1);
  }

  /** `pow` without a second operand squares the target range, wrapping at its width. */
  lemma PowDefaultSquares(s: NumberState, t: BitsRange)
    requires BinaryOk(Syntax.Pow, s, Syntax.LeftRange(t), Syntax.Empty)
    requires High(s, t) < s.effectiveBits
    ensures var o := Binary(Syntax.Pow, s, Syntax.LeftRange(t), Syntax.Empty);
      var f := GetBits(s, t);
      o.result == Done
      && Field(o.after.buffer, Low(s, t), Width(s, t)) == (f * f) % Pow2(Width(s, t))
  {
    BitsFit(s, t);
    SquareWithinRange(GetBits(s, t), Width(s, t));
    ArithmeticInRange(s, t, PowerBy(2));
  }

  // ---------------------------------------------------------------------
  // `~`
  // ---------------------------------------------------------------------

  /** Cut to w bits, the n-bit complement of f is the w-bit complement of f's low bits. */
  lemma ComplementLow(f: nat, w: nat, n: nat)
    requires w <= n && f < Pow2(n)
    ensures (Pow2(n) - 1 - f) % Pow2(w) == Pow2(w) - 1 - f % Pow2(w)
  {
    Pow2Sub(w, n);
    ComplementMod(f, Pow2(w), Pow2(n - w), Pow2(n));
  }

  /** For p dividing n: `(n - 1 - f) mod p == p - 1 - f mod p`. */
  lemma ComplementMod(f: int, p: int, q: int, n: int)
    requires p > 0 && n == p * q
    ensures (n - 1 - f) % p == p - 1 - f % p
  {
    var hi, lo := f / p, f % p;
    assert n - 1 - f == (q - 1 - hi) * p + (p - 1 - lo);
    DivModUnique(n - 1 - f, p, q - 1 - hi, p - 1 - lo);
  }

  /** The target range after receiving the complement of f holds the complement of f's low bits. */
  lemma ComplementIntoReads(s: NumberState, t: BitsRange, f: nat)
    requires s.Valid() && RangeOk(s, t) && f < Pow2(128)
    ensures var u := ComplementInto(s, t, f);
      u.Valid() && RangeOk(u, t) && Low(u, t) == Low(s, t) && Width(u, t) == Width(s, t)
      && GetBits(u, t) == Pow2(Width(s, t)) - 1 - f % Pow2(Width(s, t))
  {
    GetAfterSet(s, t, Not128(f));
    SameIndexing(s, ComplementInto(s, t, f), t);
    Pow2Le(Width(s, t), 128);
    ComplementLow(f, Width(s, t), 128);
  }

  /**
   * `~` writes into the target range the complement of the source range,
   * or of the target range itself without a second operand: each bit the
   * target receives is the opposite of the source's bit.
   */
  lemma ComplementReads(s: NumberState, t: BitsRange, right: Syntax.RightOperandSource)
    requires NotOk(s, Syntax.LeftRange(t), right) && (right.RightRange? || right.Empty?)
    ensures var src := if right.RightRange? then right.range else t;
      var o := Complement(s, Syntax.LeftRange(t), right);
      RangeOk(s, src) && RangeOk(o.after, t) && o.result == Done && o.after.Valid()
      && GetBits(o.after, t) == Pow2(Width(s, t)) - 1 - GetBits(s, src) % Pow2(Width(s, t))
  {
    var src := if right.RightRange? then right.range else t;
    BitsFit(s, src);
    ComplementIntoReads(s, t, GetBits(s, src));
  }

  /** Writing the complement of a field into it twice restores the buffer. */
  lemma ComplementFieldTwice(x: nat, l: nat, w: nat, f: nat, y: nat, g: nat)
    requires l + w <= 128 && f == Field(x, l, w) && f < Pow2(128)
    requires y == WithField(x, l, w, Not128(f)) && g == Field(y, l, w) && g < Pow2(128)
    ensures WithField(y, l, w, Not128(g)) == x
  {
    Pow2Le(w, 128);
    FieldOfWithField(x, l, w, Not128(f));
    ComplementLow(f, w, 128);
    ModLess(f, Pow2(w));
    ComplementLow(g, w, 128);
    ModLess(g, Pow2(w));
    WithFieldTwice(x, l, w, Not128(f), Not128(g));
    WithSameField(x, l, w);
    assert WithField(x, l, w, Not128(g)) == WithField(x, l, w, f);
  }

  /** Complementing the target range twice, without a second operand, restores the register. */
  lemma ComplementTwice(s: NumberState, t: BitsRange)
    requires NotOk(s, Syntax.LeftRange(t), Syntax.Empty)
    ensures var o := Complement(s, Syntax.LeftRange(t), Syntax.Empty);
      NotOk(o.after, Syntax.LeftRange(t), Syntax.Empty)
      && Complement(o.after, Syntax.LeftRange(t), Syntax.Empty).after == s
  {
    var l, w := Low(s, t), Width(s, t);
    var f := GetBits(s, t);
    BitsFit(s, t);
    var u := ComplementInto(s, t, f);
    ComplementIntoReads(s, t, f);
    var g := GetBits(u, t);
    BitsFit(u, t);
    ComplementFieldTwice(s.buffer, l, w, f, u.buffer, g);
    assert ComplementInto(u, t, g) == s;
  }

  // ---------------------------------------------------------------------
  // `<<`, `>>`, `>>>`, `~>>`, `<<~`, `rev`
  // ---------------------------------------------------------------------

  /** The shift count of a handler without a second operand is one. */
  lemma ShiftByOneDefault(s: NumberState, t: BitsRange)
    ensures CountSourceOk(s, Syntax.LeftRange(t), Syntax.Empty)
    ensures ShiftCount(s, Syntax.LeftRange(t), Syntax.Empty) == 1
  {
    assert Pow2(0) == 1;
  }

  /** `<<` multiplies the target range by 2^count, wrapping at its width. */
  lemma ShiftLeftMultiplies(s: NumberState, t: BitsRange, right: Syntax.RightOperandSource)
    requires ShiftOk(Syntax.SignedShiftLeft, s, Syntax.LeftRange(t), right) && !right.RightNamed?
    requires High(s, t) < s.effectiveBits
    ensures var o, c := Shift(Syntax.SignedShiftLeft, s, Syntax.LeftRange(t), right), ShiftCount(s, Syntax.LeftRange(t), right);
      Field(o.after.buffer, Low(s, t), Width(s, t)) == (GetBits(s, t) * Pow2(c)) % Pow2(Width(s, t))
  {
    var c, w := ShiftCount(s, Syntax.LeftRange(t), right), Width(s, t);
    BitsFit(s, t);
    ArithmeticInRange(s, t, ShiftLeftBy(c));
    WrapsWithinRange(ShiftLeftBy(c), GetBits(s, t), w);
  }

  /** `>>>` divides the target range by 2^count, filling with zeros. */
  lemma UnsignedShiftRightDivides(s: NumberState, t: BitsRange, right: Syntax.RightOperandSource)
    requires ShiftOk(Syntax.UnsignedShiftRight, s, Syntax.LeftRange(t), right) && !right.RightNamed?
    requires High(s, t) < s.effectiveBits
    ensures var o, c := Shift(Syntax.UnsignedShiftRight, s, Syntax.LeftRange(t), right), ShiftCount(s, Syntax.LeftRange(t), right);
      Field(o.after.buffer, Low(s, t), Width(s, t)) == GetBits(s, t) / Pow2(c)
  {
    var c, w, f := ShiftCount(s, Syntax.LeftRange(t), right), Width(s, t), GetBits(s, t);
    BitsFit(s, t);
    ArithmeticInRange(s, t, ShiftRightBy(c));
    DivNat(f, Pow2(c));
    ModLess(f / Pow2(c), Pow2(w));
  }

  /** `>>` divides the target range's two's-complement value by 2^count, rounding down. */
  lemma SignedShiftRightHalves(s: NumberState, t: BitsRange, right: Syntax.RightOperandSource)
    requires ShiftOk(Syntax.SignedShiftRight, s, Syntax.LeftRange(t), right) && !right.RightNamed?
    ensures var o, c := Shift(Syntax.SignedShiftRight, s, Syntax.LeftRange(t), right), ShiftCount(s, Syntax.LeftRange(t), right);
      RangeOk(o.after, t)
      && ToSigned(GetBits(o.after, t), Span(s, t)) == ToSigned(GetBits(s, t), Span(s, t)) / Pow2(c)
  {
    SignedShiftRightDivides(s, t, ShiftCount(s, Syntax.LeftRange(t), right));
  }

  /** `<<~` rotates the target range left by the count. */
  lemma CyclicShiftLeftRotates(s: NumberState, t: BitsRange, right: Syntax.RightOperandSource)
    requires ShiftOk(Syntax.CyclicShiftLeft, s, Syntax.LeftRange(t), right) && !right.RightNamed?
    requires High(s, t) < s.effectiveBits
    ensures var c, w := ShiftCount(s, Syntax.LeftRange(t), right), Width(s, t);
      c <= w
      && Field(Shift(Syntax.CyclicShiftLeft, s, Syntax.LeftRange(t), right).after.buffer, Low(s, t), w)
         == RotatedLeft(GetBits(s, t), w, c)
  {
    var c, w, f := ShiftCount(s, Syntax.LeftRange(t), right), Width(s, t), GetBits(s, t);
    BitsFit(s, t);
    ArithmeticInRange(s, t, RotateLeftBy(c));
    RotateLeftWithinRange(f, w, c);
  }

  /** `~>>` rotates the target range right by the count, which is a left rotation by width - count. */
  lemma CyclicShiftRightRotates(s: NumberState, t: BitsRange, right: Syntax.RightOperandSource)
    requires ShiftOk(Syntax.CyclicShiftRight, s, Syntax.LeftRange(t), right) && !right.RightNamed?
    requires High(s, t) < s.effectiveBits
    ensures var c, w := ShiftCount(s, Syntax.LeftRange(t), right), Width(s, t);
      c <= w
      && Field(Shift(Syntax.CyclicShiftRight, s, Syntax.LeftRange(t), right).after.buffer, Low(s, t), w)
         == RotatedLeft(GetBits(s, t), w, w - c)
  {
    var c, w, f := ShiftCount(s, Syntax.LeftRange(t), right), Width(s, t), GetBits(s, t);
    BitsFit(s, t);
    ArithmeticInRange(s, t, RotateRightBy(c));
    RotateRightWithinRange(f, w, c);
  }

  /** `rev` reverses the bits of the target range; a second operand is refused. */
  lemma ReversalReverses(s: NumberState, t: BitsRange)
    requires ReverseOk(s, Syntax.LeftRange(t), Syntax.Empty) && High(s, t) < s.effectiveBits
    ensures var o := Reversal(s, Syntax.LeftRange(t), Syntax.Empty);
      o.result == Done && Field(o.after.buffer, Low(s, t), Width(s, t)) == Reverse(GetBits(s, t), Width(s, t))
  {
    var w, f := Width(s, t), GetBits(s, t);
    BitsFit(s, t);
    ArithmeticInRange(s, t, ReverseBits);
    ReverseWithinRange(f, w);
    ModLess(Reverse(f, w), Pow2(w));
  }

  // ---------------------------------------------------------------------
  // `int`, `signed`, `unsigned`
  // ---------------------------------------------------------------------

  /**
   * `int` with a literal makes the register an integer of the literal's
   * width (its buffer read as a `usize`) keeping its signedness and the
   * low bits of its buffer; without a literal it is refused.
   */
  lemma IntWidthKeepsLowBits(s: NumberState, right: Syntax.RightOperandSource)
    requires IntWidthOk(right)
    ensures var o := IntWidth(s, right);
      right.Direct? ==>
        var size := right.number.buffer % Pow2(64);
        o.result == Done && o.after.Valid() && o.after.effectiveBits == size
        && o.after.buffer == s.buffer % Pow2(size) && o.after.isSigned == s.isSigned
        && o.after.numberType == Integer
    ensures !right.Direct? ==> IntWidth(s, right) == Outcome(Err("Bit width is a necessary argument"), s)
  {
    if right.Direct? {
      ConvertKeepsLowBits(s, Integer, s.isSigned, right.number.buffer % Pow2(64));
    }
  }

  /**
   * `signed` and `unsigned` keep the width and the low bits of the buffer
   * and set the signedness; after one of them, the other leaves what it
   * would have left on its own.
   */
  lemma SignednessReplaces(s: NumberState, signed: bool, other: bool)
    requires s.Valid()
    ensures var u := Resigned(s, signed).after;
      u.Valid() && u.isSigned == signed && u.effectiveBits == s.effectiveBits
      && u.buffer == s.buffer % Pow2(s.effectiveBits) && u.numberType == Integer
      && Resigned(u, other).after == Resigned(s, other).after
  {
    var eb := s.effectiveBits;
    var u := Resigned(s, signed).after;
    ConvertKeepsLowBits(s, Integer, signed, eb);
    ConvertKeepsLowBits(u, Integer, other, eb);
    ConvertKeepsLowBits(s, Integer, other, eb);
    ModLess(u.buffer, Pow2(eb));
  }

  // ---------------------------------------------------------------------
  // `cnt`, `>`, `<`, `==`
  // ---------------------------------------------------------------------

  /**
   * `cnt` shows the number of ones of the target range (literal 1, or no
   * second operand) or of zeros (literal 0), without touching the register
   * or the history; another literal or a range is refused.
   */
  lemma CountAnswers(s: NumberState, t: BitsRange, right: Syntax.RightOperandSource)
    requires CountOk(s, Syntax.LeftRange(t), right)
    ensures var o := Counted(s, Syntax.LeftRange(t), right);
      o.after == s
      && (right.Empty? || (right.Direct? && right.number.buffer == 1) ==>
            o.result == Shown(Decimal(Ones(GetBits(s, t), Span(s, t)))))
      && (right.Direct? && right.number.buffer == 0 ==>
            o.result == Shown(Decimal(Span(s, t) - Ones(GetBits(s, t), Span(s, t)))))
      && (right.Direct? && right.number.buffer > 1 ==> o.result == Err("Counting only 1 and 0"))
      && (right.RightRange? ==> o.result == Err("Count operation does not read range, specify 1 or 0"))
  {
    match right
    case Empty =>
      CountBitsValue(s, t, 1);
    case Direct(n) =>
      if n.buffer <= 1 {
        CountBitsValue(s, t, n.buffer);
      }
    case RightRange(_) =>
    case RightNamed(_) =>
  }

  /**
   * The comparisons answer "yes" or "no" for the target range's bits
   * against a literal's buffer at the literal's own width, not extended,
   * or against the source range's bits; the register is untouched and the
   * answer stays out of the history. No second operand is refused.
   */
  lemma CompareAnswers(op: Syntax.Operator, s: NumberState, t: BitsRange, right: Syntax.RightOperandSource)
    requires IsComparison(op) && CompareOk(s, Syntax.LeftRange(t), right)
    ensures var o := Compared(op, s, Syntax.LeftRange(t), right);
      o.after == s
      && (right.Empty? ==> o.result == Err("No second operand!"))
      && (right.Direct? ==>
            (1 <= right.number.effectiveBits <= 128
             && o.result == Shown(Answer(Holds(op, Field(s.buffer, Low(s, t), Width(s, t)),
                                               right.number.buffer % Pow2(right.number.effectiveBits))))))
      && (right.RightRange? ==>
            o.result == Shown(Answer(Holds(op, Field(s.buffer, Low(s, t), Width(s, t)),
                                           Field(s.buffer, Low(s, right.range), Width(s, right.range))))))
  {
    if right.Direct? {
      FullRange(right.number);
    }
  }

  // ---------------------------------------------------------------------
  // `<>`, `!`
  // ---------------------------------------------------------------------

  /**
   * `<>` on two disjoint ranges of the same width exchanges their bits; a
   * literal or no second operand is refused.
   */
  lemma SwapExchanges(s: NumberState, t: BitsRange, src: BitsRange)
    requires SwapOk(s, Syntax.LeftRange(t), Syntax.RightRange(src))
    requires Width(s, t) == Width(s, src) && (High(s, t) < Low(s, src) || High(s, src) < Low(s, t))
    ensures var o := Swapped(s, Syntax.LeftRange(t), Syntax.RightRange(src));
      o.result == Done && o.after.Valid() && RangeOk(o.after, t) && RangeOk(o.after, src)
      && GetBits(o.after, t) == GetBits(s, src) && GetBits(o.after, src) == GetBits(s, t)
  {
    var a, b := GetBits(s, t), GetBits(s, src);
    var u1 := WithBitsSet(s, t, b);
    GetAfterSet(s, t, b);
    SameIndexing(s, u1, src);
    var u := WithBitsSet(u1, src, a);
    GetAfterSet(u1, src, a);
    SameIndexing(s, u, t);
    SameIndexing(s, u, src);
    SwapFields(s.buffer, Low(s, t), Low(s, src), Width(s, t), a, b, u1.buffer, u.buffer);
    assert u == Exchanged(s, t, src);
  }

  /** Writing each of two disjoint fields of the same width with the other's value exchanges them. */
  lemma SwapFields(x: nat, lt: nat, ls: nat, w: nat, a: nat, b: nat, y1: nat, y: nat)
    requires lt + w <= ls || ls + w <= lt
    requires a == Field(x, lt, w) && b == Field(x, ls, w)
    requires y1 == WithField(x, lt, w, b) && y == WithField(y1, ls, w, a)
    ensures Field(y, lt, w) == b && Field(y, ls, w) == a
  {
    ModLess(a, Pow2(w));
    ModLess(b, Pow2(w));
    FieldOfWithField(x, lt, w, b);
    FieldOfWithField(y1, ls, w, a);
    DisjointFields(y1, lt, w, ls, w, a);
  }

  /** `<>` keeps every bit outside the two ranges. */
  lemma SwapKeepsOtherBits(s: NumberState, t: BitsRange, src: BitsRange)
    requires SwapOk(s, Syntax.LeftRange(t), Syntax.RightRange(src))
    ensures var u := Swapped(s, Syntax.LeftRange(t), Syntax.RightRange(src)).after;
      forall i: nat :: (i < Low(s, t) || High(s, t) < i) && (i < Low(s, src) || High(s, src) < i)
        ==> (Bit(u.buffer, i) <==> Bit(s.buffer, i))
  {
    var u1 := WithBitsSet(s, t, GetBits(s, src));
    GetAfterSet(s, t, GetBits(s, src));
    SameIndexing(s, u1, src);
    GetAfterSet(u1, src, GetBits(s, t));
    assert Swapped(s, Syntax.LeftRange(t), Syntax.RightRange(src)).after == WithBitsSet(u1, src, GetBits(s, t));
  }

  /**
   * `!` succeeds exactly on the whole register without a second operand;
   * it then makes the register signed and holds the width-bit two's
   * complement of the value it read (zero stays zero), which negates the
   * signed value except for the most negative one. Any other shape is
   * refused and leaves the register alone.
   */
  lemma NegationAnswers(s: NumberState, left: Syntax.LeftOperandSource, right: Syntax.RightOperandSource)
    requires NegationOk(s, left, right)
    ensures var o := Negation(s, left, right);
      (o.result.Ok? <==> left == Syntax.LeftRange(Full) && right.Empty?)
      && (o.result.Err? ==> o.after == s)
    ensures left == Syntax.LeftRange(Full) && right.Empty? ==>
      var o, eb := Negation(s, left, right), s.effectiveBits;
      var v := s.buffer % Pow2(eb);
      o.result == Done && o.after.isSigned && o.after.effectiveBits == eb
      && o.after.buffer == (if v == 0 then 0 else Pow2(eb) - v)
      && ToSigned(o.after.buffer, eb) == if v == Pow2(eb - 1) then ToSigned(v, eb) else -ToSigned(v, eb)
  {
    if left == Syntax.LeftRange(Full) && right.Empty? {
      NegatedValue(s);
      NegateSigned(s);
    }
  }

  /** Negating the whole register twice restores its value within the width. */
  lemma NegationTwice(s: NumberState)
    requires NegateOk(s)
    ensures var u := Negation(s, Syntax.LeftRange(Full), Syntax.Empty).after;
      NegationOk(u, Syntax.LeftRange(Full), Syntax.Empty)
      && Negation(u, Syntax.LeftRange(Full), Syntax.Empty).after.buffer == s.buffer % Pow2(s.effectiveBits)
  {
    NegateTwice(s);
  }
}
