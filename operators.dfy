// The operator handlers of src/operators.rs. A handler receives the
// register, the left operand (a range of the register) and the right
// operand (a range, a literal, or nothing), changes the register in place
// and reports whether the change goes into the history, with an optional
// text to show. Every handler is a method on a `Register.Number` proved to
// leave the outcome that a function of the old register describes; the
// properties of those functions are the lemmas of this module.
module Operators {
  import opened Bits
  import opened Results
  import opened Numbers
  import Syntax
  import Register

  /** What the read-eval loop does with the register after a handler ran. */
  datatype HandlerResult = Historical | Nonhistorical | Undo | Redo

  /** A handler's answer: the kind of change and an optional text, or an error message. */
  type OperationResult = Result<(HandlerResult, Option<string>)>

  /** A handler's answer together with the register it leaves. */
  datatype Outcome = Outcome(result: OperationResult, after: NumberState)

  /** `Ok((Historical, None))`: the handler's default answer. */
  const Done: OperationResult := Ok((Historical, None))

  /** A range's bits fit the u128 they were read from. */
  lemma BitsFit(s: NumberState, r: BitsRange)
    requires RangeOk(s, r)
    ensures GetBits(s, r) < Pow2(Width(s, r)) <= Pow2(128)
  {
    Pow2Le(Width(s, r), 128);
  }

  // ---------------------------------------------------------------------
  // `=`, `+`, `-`, `*`, `/`, `%`, `pow`, `^`, `&`, `|`
  // ---------------------------------------------------------------------

  /** The handlers that take an extended literal or a range as their second operand. */
  predicate IsBinary(op: Syntax.Operator)
  {
    op.Assign? || op.Sum? || op.Sub? || op.Mul? || op.Div? || op.Mod? || op.Pow?
    || op.BitXor? || op.BitAnd? || op.BitOr?
  }

  /** The `range_*` closure a binary handler hands its operand to. */
  function ArithOf(op: Syntax.Operator, v: nat): Arith
    requires IsBinary(op) && !op.Assign?
  {
    match op
    case Sum => AddBy(v)
    case Sub => SubtractBy(v)
    case Mul => MultiplyBy(v)
    case Div => DivideBy(v)
    case Mod => RemainderBy(v)
    case Pow => PowerBy(v)
    case BitXor => XorWith(v)
    case BitAnd => AndWith(v)
    case BitOr => OrWith(v)
  }

  /**
   * Reading the second operand does not panic: a literal is sign-extended
   * to the register's width in any case and then read whole when the left
   * operand is a range; a range of the register is read when the left
   * operand is a range.
   */
  predicate OperandOk(s: NumberState, left: Syntax.LeftOperandSource, right: Syntax.RightOperandSource)
  {
    match right
    case Direct(n) => SignExtendOk(n) && (left.LeftRange? ==> RangeOk(SignExtended(n, s.effectiveBits), Full))
    case RightRange(r) => left.LeftRange? ==> RangeOk(s, r)
    case _ => true
  }

  /**
   * The second operand of a binary handler: the literal after
   * `signed_extend_to(buffer.max_size())`, read whole, or the bits of the
   * source range.
   */
  function SecondOperand(s: NumberState, left: Syntax.LeftOperandSource, right: Syntax.RightOperandSource): (v: nat)
    requires OperandOk(s, left, right) && left.LeftRange? && (right.Direct? || right.RightRange?)
    ensures v < Pow2(128)
  {
    match right
    case Direct(n) =>
      BitsFit(SignExtended(n, s.effectiveBits), Full);
      GetBits(SignExtended(n, s.effectiveBits), Full)
    case RightRange(r) =>
      BitsFit(s, r);
      GetBits(s, r)
  }

  /**
   * Applying the operand to the target range does not panic: a zero
   * divisor is caught before the target is touched, and otherwise the
   * target must be a range the engine can work on and the closure must not
   * panic (the remainder by zero is not caught).
   */
  predicate AppliesTo(op: Syntax.Operator, s: NumberState, t: BitsRange, v: nat)
    requires IsBinary(op)
  {
    (op.Div? && v == 0) || (RangeOk(s, t) && (op.Assign? || ArithOk(ArithOf(op, v), Span(s, t))))
  }

  /** When a binary handler runs without panicking. */
  predicate BinaryOk(op: Syntax.Operator, s: NumberState, left: Syntax.LeftOperandSource, right: Syntax.RightOperandSource)
  {
    IsBinary(op) && s.Valid() && OperandOk(s, left, right)
    && match left
       case LeftNamed(_) => true
       case LeftRange(t) =>
         (right.Empty? && op.Pow? ==> RangeOk(s, t))
         && ((right.Direct? || right.RightRange?) ==> AppliesTo(op, s, t, SecondOperand(s, left, right)))
  }

  /**
   * The operand applied to the target range: `set_bits` for `=`, a zero
   * divisor refused with the message of its kind, the `range_*` operation
   * otherwise.
   */
  function Applied(op: Syntax.Operator, s: NumberState, t: BitsRange, v: nat, zeroMessage: string): (o: Outcome)
    requires IsBinary(op) && s.Valid() && AppliesTo(op, s, t, v)
    ensures o.result.Err? ==> o.after == s
  {
    if op.Assign? then Outcome(Done, WithBitsSet(s, t, v))
    else if op.Div? && v == 0 then Outcome(Err(zeroMessage), s)
    else Outcome(Done, AfterArithmetic(s, t, ArithOf(op, v)))
  }

  /**
   * `operator_assign`, `operator_sum`, `operator_sub`, `operator_mul`,
   * `operator_div`, `operator_mod`, `operator_pow`, `operator_xor`,
   * `operator_and` and `operator_or`. Without a second operand only `pow`
   * runs, squaring the target range; a named part on either side does
   * nothing.
   */
  function Binary(op: Syntax.Operator, s: NumberState, left: Syntax.LeftOperandSource, right: Syntax.RightOperandSource): (o: Outcome)
    requires BinaryOk(op, s, left, right)
    ensures o.result.Err? ==> o.after == s
    ensures o.result.Ok? ==> o.result == Done
  {
    match right
    case Empty =>
      if !op.Pow? then Outcome(Err("No second operand!"), s)
      else if left.LeftRange? then
        Pow2Lt(1, 128);
        Pow2Small();
        Outcome(Done, AfterArithmetic(s, left.range, PowerBy(2)))
      else Outcome(Done, s)
    case RightNamed(_) => Outcome(Done, s)
    case Direct(_) =>
      if left.LeftRange? then
        Applied(op, s, left.range, SecondOperand(s, left, right), "Cannot divide by 0")
      else Outcome(Done, s)
    case RightRange(_) =>
      if left.LeftRange? then
        Applied(op, s, left.range, SecondOperand(s, left, right),
                "There are only 0 bits in given range, cannot divide by 0")
      else Outcome(Done, s)
  }

  /** The body shared by the binary handlers once both operands are known. */
  method RangeOperation(op: Syntax.Operator, buffer: Register.Number, t: BitsRange, bits: nat, zeroMessage: string)
    returns (r: OperationResult)
    requires IsBinary(op) && buffer.Valid() && bits < Pow2(128) && AppliesTo(op, buffer.State(), t, bits)
    modifies buffer
    ensures Outcome(r, buffer.State()) == Applied(op, old(buffer.State()), t, bits, zeroMessage)
  {
    if op.Div? && bits == 0 {
      return Err(zeroMessage);
    }
    if op.Assign? {
      buffer.SetBits(t, bits);
    } else {
      RangeArithmetic(op, buffer, t, bits);
    }
    r := Done;
  }

  /** The `range_*` operation of a binary handler other than `=`. */
  method RangeArithmetic(op: Syntax.Operator, buffer: Register.Number, t: BitsRange, bits: nat)
    requires IsBinary(op) && !op.Assign? && buffer.Valid() && bits < Pow2(128)
    requires RangeOk(buffer.State(), t) && ArithOk(ArithOf(op, bits), Span(buffer.State(), t))
    modifies buffer
    ensures buffer.State() == AfterArithmetic(old(buffer.State()), t, ArithOf(op, bits))
  {
    match op
    case Sum => buffer.RangeAddBits(t, bits);
    case Sub => buffer.RangeSubtractBits(t, bits);
    case Mul => buffer.RangeMultiplyBits(t, bits);
    case Div => buffer.RangeDivBits(t, bits);
    case Mod => buffer.RangeModBits(t, bits);
    case Pow => buffer.RangePowBits(t, bits);
    case BitXor => buffer.RangeXorBits(t, bits);
    case BitAnd => buffer.RangeAndBits(t, bits);
    case BitOr => buffer.RangeOrBits(t, bits);
  }

  /** A literal second operand: `signed_extend_to(max_size)` on a copy, then the copy read whole. */
  method ExtendedLiteral(buffer: Register.Number, n: NumberState) returns (bits: nat)
    requires SignExtendOk(n) && RangeOk(SignExtended(n, buffer.effectiveBits), Full)
    ensures bits == GetBits(SignExtended(n, buffer.effectiveBits), Full) && bits < Pow2(128)
  {
    var other := new Register.Number(n);
    var size := buffer.MaxSize();
    other.SignedExtendTo(size);
    bits := other.GetBits(Full);
  }

  /** The binary handlers on a register. */
  method OperatorBinary(op: Syntax.Operator, buffer: Register.Number,
                        left: Syntax.LeftOperandSource, right: Syntax.RightOperandSource)
    returns (r: OperationResult)
    requires BinaryOk(op, buffer.State(), left, right)
    modifies buffer
    ensures Outcome(r, buffer.State()) == Binary(op, old(buffer.State()), left, right)
  {
    ghost var s := buffer.State();
    r := Done;
    match right
    case Empty =>
      if !op.Pow? {
        return Err("No second operand!");
      }
      if left.LeftRange? {
        Pow2Lt(1, 128);
        Pow2Small();
        buffer.RangePowBits(left.range, 2);
      }
    case RightNamed(_) =>
    case Direct(n) =>
      if left.LeftRange? {
        var bits := ExtendedLiteral(buffer, n);
        r := OperandIntoRange(op, buffer, left, right, bits, "Cannot divide by 0");
      }
    case RightRange(source) =>
      if left.LeftRange? {
        var bits := buffer.GetBits(source);
        r := OperandIntoRange(op, buffer, left, right, bits,
                              "There are only 0 bits in given range, cannot divide by 0");
      }
  }

  /** The second operand, once read, applied to the target range. */
  method OperandIntoRange(op: Syntax.Operator, buffer: Register.Number,
                          left: Syntax.LeftOperandSource, right: Syntax.RightOperandSource,
                          bits: nat, zeroMessage: string)
    returns (r: OperationResult)
    requires BinaryOk(op, buffer.State(), left, right) && left.LeftRange? && (right.Direct? || right.RightRange?)
    requires bits == SecondOperand(buffer.State(), left, right)
    requires zeroMessage == if right.Direct? then "Cannot divide by 0"
                            else "There are only 0 bits in given range, cannot divide by 0"
    modifies buffer
    ensures Outcome(r, buffer.State()) == Binary(op, old(buffer.State()), left, right)
  {
    ghost var s := buffer.State();
    assert Binary(op, s, left, right) == Applied(op, s, left.range, bits, zeroMessage);
    r := RangeOperation(op, buffer, left.range, bits, zeroMessage);
  }

  /**
   * `operator_root` hands the target range and an exponent to
   * `range_root_bits`: the second operand, or 2 without one; a named part
   * on either side hands over nothing.
   */
  function RootRequest(s: NumberState, left: Syntax.LeftOperandSource, right: Syntax.RightOperandSource)
    : (q: Option<(BitsRange, nat)>)
    requires OperandOk(s, left, right)
    ensures q.Some? <==> left.LeftRange? && !right.RightNamed?
    ensures q.Some? ==> q.value.0 == left.range
  {
    match left
    case LeftNamed(_) => None
    case LeftRange(t) =>
      if right.Empty? then Some((t, 2))
      else if right.RightNamed? then None
      else Some((t, SecondOperand(s, left, right)))
  }

  // ---------------------------------------------------------------------
  // `<<`, `>>`, `>>>`, `~>>`, `<<~`
  // ---------------------------------------------------------------------

  predicate IsShift(op: Syntax.Operator)
  {
    op.SignedShiftLeft? || op.SignedShiftRight? || op.UnsignedShiftRight?
    || op.CyclicShiftRight? || op.CyclicShiftLeft?
  }

  /** The `range_*` closure of the shifts other than the arithmetic shift right. */
  function ShiftArith(op: Syntax.Operator, count: nat): Arith
    requires IsShift(op) && !op.SignedShiftRight?
  {
    match op
    case SignedShiftLeft => ShiftLeftBy(count)
    case UnsignedShiftRight => ShiftRightBy(count)
    case CyclicShiftRight => RotateRightBy(count)
    case CyclicShiftLeft => RotateLeftBy(count)
  }

  /** Reading the count from a source range does not panic. */
  predicate CountSourceOk(s: NumberState, left: Syntax.LeftOperandSource, right: Syntax.RightOperandSource)
  {
    left.LeftRange? && right.RightRange? ==> RangeOk(s, right.range)
  }

  /**
   * The shift count: the literal's buffer as a `usize`, unextended, or the
   * source range's bits as a `usize`, keeping the low 64 bits in both
   * cases; 1 without a second operand.
   */
  function ShiftCount(s: NumberState, left: Syntax.LeftOperandSource, right: Syntax.RightOperandSource): (c: nat)
    requires CountSourceOk(s, left, right) && left.LeftRange? && !right.RightNamed?
    ensures c < Pow2(64)
  {
    Pow2Le(0, 64);
    if right.Direct? then right.number.buffer % Pow2(64)
    else if right.RightRange? then GetBits(s, right.range) % Pow2(64)
    else 1
  }

  /** The shift of the target range by count does not panic. */
  predicate ShiftApplies(op: Syntax.Operator, s: NumberState, t: BitsRange, count: nat)
    requires IsShift(op)
  {
    s.Valid() && RangeOk(s, t)
    && if op.SignedShiftRight? then SignedShiftRightOk(s, t, count) else ArithOk(ShiftArith(op, count), Span(s, t))
  }

  /** The register after shifting the target range by count. */
  function ShiftedRange(op: Syntax.Operator, s: NumberState, t: BitsRange, count: nat): NumberState
    requires IsShift(op) && ShiftApplies(op, s, t, count)
  {
    if op.SignedShiftRight? then SignedShiftedRight(s, t, count) else AfterArithmetic(s, t, ShiftArith(op, count))
  }

  predicate ShiftOk(op: Syntax.Operator, s: NumberState, left: Syntax.LeftOperandSource, right: Syntax.RightOperandSource)
  {
    IsShift(op) && s.Valid() && CountSourceOk(s, left, right)
    && (left.LeftRange? && !right.RightNamed? ==> ShiftApplies(op, s, left.range, ShiftCount(s, left, right)))
  }

  /**
   * `operator_signed_shift_left`, `operator_signed_shift_right`,
   * `operator_unsigned_shift_right`, `operator_unsigned_cyclic_shift_right`
   * and `operator_unsigned_cyclic_shift_left`: the target range is shifted
   * by the count, and a named part on either side does nothing.
   */
  function Shift(op: Syntax.Operator, s: NumberState, left: Syntax.LeftOperandSource, right: Syntax.RightOperandSource): (o: Outcome)
    requires ShiftOk(op, s, left, right)
    ensures o.result == Done
  {
    if left.LeftRange? && !right.RightNamed? then
      Outcome(Done, ShiftedRange(op, s, left.range, ShiftCount(s, left, right)))
    else
      Outcome(Done, s)
  }

  /** The shift of the target range on a register. */
  method ShiftRange(op: Syntax.Operator, buffer: Register.Number, t: BitsRange, count: nat)
    requires IsShift(op) && ShiftApplies(op, buffer.State(), t, count)
    modifies buffer
    ensures buffer.State() == ShiftedRange(op, old(buffer.State()), t, count)
  {
    match op
    case SignedShiftLeft => buffer.SignedShiftLeft(t, count);
    case SignedShiftRight => buffer.SignedShiftRight(t, count);
    case UnsignedShiftRight => buffer.UnsignedShiftRight(t, count);
    case CyclicShiftRight => buffer.UnsignedCyclicShiftRight(t, count);
    case CyclicShiftLeft => buffer.UnsignedCyclicShiftLeft(t, count);
  }

  /** The shift handlers on a register. */
  method OperatorShift(op: Syntax.Operator, buffer: Register.Number,
                       left: Syntax.LeftOperandSource, right: Syntax.RightOperandSource)
    returns (r: OperationResult)
    requires ShiftOk(op, buffer.State(), left, right)
    modifies buffer
    ensures Outcome(r, buffer.State()) == Shift(op, old(buffer.State()), left, right)
  {
    r := Done;
    if left.LeftRange? && !right.RightNamed? {
      var count: nat := 1;
      if right.Direct? {
        var other := new Register.Number(right.number);
        count := other.ToUsize();
      } else if right.RightRange? {
        var bits := buffer.GetBits(right.range);
        // `as usize`
        count := bits % Pow2(64);
      }
      ShiftRange(op, buffer, left.range, count);
    }
  }

  // ---------------------------------------------------------------------
  // `~`, `rev`
  // ---------------------------------------------------------------------

  /** The ranges `operator_not` reads and writes are ranges the engine can work on. */
  predicate NotOk(s: NumberState, left: Syntax.LeftOperandSource, right: Syntax.RightOperandSource)
  {
    s.Valid()
    && match left
       case LeftNamed(_) => true
       case LeftRange(t) =>
         (right.RightRange? ==> RangeOk(s, right.range) && RangeOk(s, t))
         && (right.Empty? ==> RangeOk(s, t))
  }

  /** The target range receives the u128 complement of v. */
  function ComplementInto(s: NumberState, t: BitsRange, v: nat): NumberState
    requires RangeOk(s, t) && v < Pow2(128)
  {
    WithBitsSet(s, t, Not128(v))
  }

  /**
   * `operator_not`: the target range receives the complement of the source
   * range, or its own complement without a second operand; a literal is
   * refused.
   */
  function Complement(s: NumberState, left: Syntax.LeftOperandSource, right: Syntax.RightOperandSource): (o: Outcome)
    requires NotOk(s, left, right)
    ensures o.result.Err? ==> o.after == s
  {
    match right
    case Direct(_) => Outcome(Err("No second operand allowed!"), s)
    case RightNamed(_) => Outcome(Done, s)
    case RightRange(src) =>
      if left.LeftRange? then
        BitsFit(s, src);
        Outcome(Done, ComplementInto(s, left.range, GetBits(s, src)))
      else Outcome(Done, s)
    case Empty =>
      if left.LeftRange? then
        BitsFit(s, left.range);
        Outcome(Done, ComplementInto(s, left.range, GetBits(s, left.range)))
      else Outcome(Done, s)
  }

  /** `operator_not` on a register. */
  method OperatorNot(buffer: Register.Number, left: Syntax.LeftOperandSource, right: Syntax.RightOperandSource)
    returns (r: OperationResult)
    requires NotOk(buffer.State(), left, right)
    modifies buffer
    ensures Outcome(r, buffer.State()) == Complement(old(buffer.State()), left, right)
  {
    r := Done;
    match right
    case Direct(_) =>
      return Err("No second operand allowed!");
    case RightRange(source) =>
      if left.LeftRange? {
        var bits := buffer.GetBits(source);
        buffer.SetBits(left.range, Not128(bits));
      }
    case RightNamed(_) =>
    case Empty =>
      if left.LeftRange? {
        var bits := buffer.GetBits(left.range);
        buffer.SetBits(left.range, Not128(bits));
      }
  }

  predicate ReverseOk(s: NumberState, left: Syntax.LeftOperandSource, right: Syntax.RightOperandSource)
  {
    s.Valid() && (left.LeftRange? && right.Empty? ==> RangeOk(s, left.range))
  }

  /** `operator_reverse`: the target range's bits in reverse order; any second operand is refused. */
  function Reversal(s: NumberState, left: Syntax.LeftOperandSource, right: Syntax.RightOperandSource): (o: Outcome)
    requires ReverseOk(s, left, right)
    ensures o.result.Err? ==> o.after == s
  {
    match right
    case Direct(_) => Outcome(Err("No second operand allowed!"), s)
    case RightRange(_) => Outcome(Err("No second operand allowed!"), s)
    case RightNamed(_) => Outcome(Done, s)
    case Empty =>
      if left.LeftRange? then Outcome(Done, AfterArithmetic(s, left.range, ReverseBits)) else Outcome(Done, s)
  }

  /** `operator_reverse` on a register. */
  method OperatorReverse(buffer: Register.Number, left: Syntax.LeftOperandSource, right: Syntax.RightOperandSource)
    returns (r: OperationResult)
    requires ReverseOk(buffer.State(), left, right)
    modifies buffer
    ensures Outcome(r, buffer.State()) == Reversal(old(buffer.State()), left, right)
  {
    r := Done;
    match right
    case Direct(_) =>
      return Err("No second operand allowed!");
    case RightRange(_) =>
      return Err("No second operand allowed!");
    case RightNamed(_) =>
    case Empty =>
      if left.LeftRange? {
        buffer.RangeReverseBits(left.range);
      }
  }

  // ---------------------------------------------------------------------
  // `int`, `signed`, `unsigned`
  // ---------------------------------------------------------------------

  /** The new width, the literal's buffer as a `usize`, fits the u128. */
  predicate IntWidthOk(right: Syntax.RightOperandSource)
  {
    right.Direct? ==> right.number.buffer % Pow2(64) <= 128
  }

  /**
   * `operator_int_bits_width`: an integer register of the literal's width,
   * keeping its signedness; anything but a literal is refused.
   */
  function IntWidth(s: NumberState, right: Syntax.RightOperandSource): (o: Outcome)
    requires IntWidthOk(right)
  {
    match right
    case Direct(n) => Outcome(Done, Converted(s, Integer, s.isSigned, n.buffer % Pow2(64)))
    case _ => Outcome(Err("Bit width is a necessary argument"), s)
  }

  /** `operator_int_bits_width` on a register. */
  method OperatorIntBitsWidth(buffer: Register.Number, left: Syntax.LeftOperandSource, right: Syntax.RightOperandSource)
    returns (r: OperationResult)
    requires IntWidthOk(right)
    modifies buffer
    ensures Outcome(r, buffer.State()) == IntWidth(old(buffer.State()), right)
  {
    match right
    case Direct(n) =>
      var number := new Register.Number(n);
      var signed := buffer.Signed();
      var size := number.ToUsize();
      buffer.Convert(Integer, signed, size);
      r := Done;
    case _ =>
      r := Err("Bit width is a necessary argument");
  }

  /** `operator_signed` and `operator_unsigned`: an integer register of the same width with the given signedness. */
  function Resigned(s: NumberState, signed: bool): (o: Outcome)
    requires s.Valid()
    ensures o.result == Done
  {
    Outcome(Done, Converted(s, Integer, signed, s.effectiveBits))
  }

  /** `operator_signed` (signed true) and `operator_unsigned` (false) on a register. */
  method OperatorSignedness(buffer: Register.Number, signed: bool) returns (r: OperationResult)
    requires buffer.Valid()
    modifies buffer
    ensures Outcome(r, buffer.State()) == Resigned(old(buffer.State()), signed)
  {
    var size := buffer.MaxSize();
    buffer.Convert(Integer, signed, size);
    r := Done;
  }

  // ---------------------------------------------------------------------
  // `cnt`, `>`, `<`, `==`
  // ---------------------------------------------------------------------

  /** Counting the selected bits of the target range does not panic. */
  predicate CountOk(s: NumberState, left: Syntax.LeftOperandSource, right: Syntax.RightOperandSource)
  {
    match left
    case LeftNamed(_) => true
    case LeftRange(t) =>
      (right.Direct? && right.number.buffer <= 1 ==> CountBitsOk(s, t, right.number.buffer))
      && (right.Empty? ==> CountBitsOk(s, t, 1))
  }

  /** The answer of a read-only handler: the text, never recorded in the history. */
  function Shown(text: string): OperationResult
  {
    Ok((Nonhistorical, Some(text)))
  }

  /**
   * `operator_count`: the zeros (literal 0) or ones (literal 1, or no
   * second operand) of the target range, in decimal; another literal or a
   * range is refused, and a literal with a named part reaches a `todo!`.
   */
  function Counted(s: NumberState, left: Syntax.LeftOperandSource, right: Syntax.RightOperandSource): (o: Outcome)
    requires CountOk(s, left, right)
  {
    match right
    case Direct(n) =>
      if left.LeftNamed? then Outcome(Panic, s)
      else if n.buffer <= 1 then Outcome(Shown(Decimal(CountBits(s, left.range, n.buffer))), s)
      else Outcome(Err("Counting only 1 and 0"), s)
    case RightRange(_) => Outcome(Err("Count operation does not read range, specify 1 or 0"), s)
    case RightNamed(_) => Outcome(Done, s)
    case Empty =>
      if left.LeftRange? then Outcome(Shown(Decimal(CountBits(s, left.range, 1))), s) else Outcome(Done, s)
  }

  /** `operator_count` on a register. */
  method OperatorCount(buffer: Register.Number, left: Syntax.LeftOperandSource, right: Syntax.RightOperandSource)
    returns (r: OperationResult)
    requires CountOk(buffer.State(), left, right)
    ensures Outcome(r, buffer.State()) == Counted(buffer.State(), left, right)
  {
    match right
    case Direct(n) =>
      if left.LeftNamed? {
        return Panic;
      }
      var number := new Register.Number(n);
      var which := number.ToU128();
      if which > 1 {
        return Err("Counting only 1 and 0");
      }
      var count := buffer.RangeCountBits(left.range, which);
      r := Shown(Decimal(count));
    case RightRange(_) =>
      r := Err("Count operation does not read range, specify 1 or 0");
    case RightNamed(_) =>
      r := Done;
    case Empty =>
      if left.LeftRange? {
        var count := buffer.RangeCountBits(left.range, 1);
        r := Shown(Decimal(count));
      } else {
        r := Done;
      }
  }

  predicate IsComparison(op: Syntax.Operator)
  {
    op.Greater? || op.Less? || op.Equals?
  }

  /** The comparison of the handler on the unsigned bits of the two operands. */
  predicate Holds(op: Syntax.Operator, first: nat, second: nat)
    requires IsComparison(op)
  {
    match op
    case Greater => first > second
    case Less => first < second
    case Equals => first == second
  }

  /** "yes" or "no". */
  function Answer(b: bool): string
  {
    if b then "yes" else "no"
  }

  /** Both operands of a comparison can be read: the target range, and the literal whole or the source range. */
  predicate CompareOk(s: NumberState, left: Syntax.LeftOperandSource, right: Syntax.RightOperandSource)
  {
    match left
    case LeftNamed(_) => true
    case LeftRange(t) =>
      (right.Direct? ==> RangeOk(right.number, Full) && RangeOk(s, t))
      && (right.RightRange? ==> RangeOk(s, right.range) && RangeOk(s, t))
  }

  /** The second operand of a comparison: the literal read whole at its own width, or the source range. */
  function ComparedOperand(s: NumberState, left: Syntax.LeftOperandSource, right: Syntax.RightOperandSource): nat
    requires CompareOk(s, left, right) && left.LeftRange? && (right.Direct? || right.RightRange?)
  {
    if right.Direct? then GetBits(right.number, Full) else GetBits(s, right.range)
  }

  /**
   * `operator_greater`, `operator_less` and `operator_equals`: "yes" or
   * "no" for the target range against the second operand; a named part
   * does nothing and no second operand is refused.
   */
  function Compared(op: Syntax.Operator, s: NumberState, left: Syntax.LeftOperandSource, right: Syntax.RightOperandSource)
    : (o: Outcome)
    requires IsComparison(op) && CompareOk(s, left, right)
  {
    if right.Empty? then Outcome(Err("No second operand!"), s)
    else if right.RightNamed? || left.LeftNamed? then Outcome(Done, s)
    else Outcome(Shown(Answer(Holds(op, GetBits(s, left.range), ComparedOperand(s, left, right)))), s)
  }

  /** The comparison handlers on a register. */
  method OperatorCompare(op: Syntax.Operator, buffer: Register.Number,
                         left: Syntax.LeftOperandSource, right: Syntax.RightOperandSource)
    returns (r: OperationResult)
    requires IsComparison(op) && CompareOk(buffer.State(), left, right)
    ensures Outcome(r, buffer.State()) == Compared(op, buffer.State(), left, right)
  {
    if right.Empty? {
      return Err("No second operand!");
    }
    if right.RightNamed? || left.LeftNamed? {
      return Done;
    }
    ghost var s := buffer.State();
    var second: nat;
    if right.Direct? {
      var number := new Register.Number(right.number);
      second := number.GetBits(Full);
    } else {
      second := buffer.GetBits(right.range);
    }
    assert second == ComparedOperand(s, left, right);
    var first := buffer.GetBits(left.range);
    var yes := match op
      case Greater => first > second
      case Less => first < second
      case Equals => first == second;
    assert yes == Holds(op, GetBits(s, left.range), ComparedOperand(s, left, right));
    r := Shown(Answer(yes));
  }

  // ---------------------------------------------------------------------
  // `<>`, `!`, `undo`, `redo`
  // ---------------------------------------------------------------------

  predicate SwapOk(s: NumberState, left: Syntax.LeftOperandSource, right: Syntax.RightOperandSource)
  {
    s.Valid() && (left.LeftRange? && right.RightRange? ==> RangeOk(s, left.range) && RangeOk(s, right.range))
  }

  /** The target range receives the source range's old bits, then the source range the target's. */
  function Exchanged(s: NumberState, t: BitsRange, src: BitsRange): NumberState
    requires RangeOk(s, t) && RangeOk(s, src)
  {
    var second, first := GetBits(s, src), GetBits(s, t);
    var u := WithBitsSet(s, t, second);
    SameIndexing(s, u, src);
    WithBitsSet(u, src, first)
  }

  /** `operator_swap`: the two ranges exchange their bits; a literal or no second operand is refused. */
  function Swapped(s: NumberState, left: Syntax.LeftOperandSource, right: Syntax.RightOperandSource): (o: Outcome)
    requires SwapOk(s, left, right)
    ensures o.result.Err? ==> o.after == s
  {
    match right
    case Direct(_) => Outcome(Err("Cannot swap with rvalue!"), s)
    case RightRange(src) =>
      if left.LeftRange? then Outcome(Done, Exchanged(s, left.range, src)) else Outcome(Done, s)
    case RightNamed(_) => Outcome(Done, s)
    case Empty => Outcome(Err("No second operand!"), s)
  }

  /** `operator_swap` on a register. */
  method OperatorSwap(buffer: Register.Number, left: Syntax.LeftOperandSource, right: Syntax.RightOperandSource)
    returns (r: OperationResult)
    requires SwapOk(buffer.State(), left, right)
    modifies buffer
    ensures Outcome(r, buffer.State()) == Swapped(old(buffer.State()), left, right)
  {
    r := Done;
    match right
    case Direct(_) =>
      return Err("Cannot swap with rvalue!");
    case RightRange(source) =>
      if left.LeftRange? {
        ghost var s := buffer.State();
        var second := buffer.GetBits(source);
        var first := buffer.GetBits(left.range);
        buffer.SetBits(left.range, second);
        SameIndexing(s, buffer.State(), source);
        buffer.SetBits(source, first);
      }
    case RightNamed(_) =>
    case Empty =>
      return Err("No second operand!");
  }

  /** The negation itself does not panic when the operands pass the handler's checks. */
  predicate NegationOk(s: NumberState, left: Syntax.LeftOperandSource, right: Syntax.RightOperandSource)
  {
    left == Syntax.LeftRange(Full) && right.Empty? ==> NegateOk(s)
  }

  /**
   * `operator_negate`: only the whole register, [Highest:Lowest], without a
   * second operand, is negated; each other shape has its message.
   */
  function Negation(s: NumberState, left: Syntax.LeftOperandSource, right: Syntax.RightOperandSource): (o: Outcome)
    requires NegationOk(s, left, right)
  {
    match left
    case LeftNamed(_) => Outcome(Err("Only [max:min] range is acceptable for negation."), s)
    case LeftRange(r) =>
      if !r.high.Highest? then Outcome(Err("Left bound of range can be only highest index."), s)
      else if !r.low.Lowest? then Outcome(Err("Right bound of range can be only lowest index."), s)
      else if !right.Empty? then Outcome(Err("Negation takes no second operand."), s)
      else Outcome(Done, Negated(s))
  }

  /** `operator_negate` on a register. */
  method OperatorNegate(buffer: Register.Number, left: Syntax.LeftOperandSource, right: Syntax.RightOperandSource)
    returns (r: OperationResult)
    requires NegationOk(buffer.State(), left, right)
    modifies buffer
    ensures Outcome(r, buffer.State()) == Negation(old(buffer.State()), left, right)
  {
    if left.LeftNamed? {
      return Err("Only [max:min] range is acceptable for negation.");
    }
    if !left.range.high.Highest? {
      return Err("Left bound of range can be only highest index.");
    }
    if !left.range.low.Lowest? {
      return Err("Right bound of range can be only lowest index.");
    }
    if !right.Empty? {
      return Err("Negation takes no second operand.");
    }
    ghost var s := buffer.State();
    assert left == Syntax.LeftRange(Full);
    assert Negation(s, left, right) == Outcome(Done, Negated(s));
    buffer.Negate();
    r := Done;
  }

  /** `operator_undo`: the register is left alone and the caller steps back in the history. */
  method OperatorUndo(buffer: Register.Number, left: Syntax.LeftOperandSource, right: Syntax.RightOperandSource)
    returns (r: OperationResult)
    ensures r == Ok((Undo, None))
  {
    r := Ok((Undo, None));
  }

  /** `operator_redo`: the register is left alone and the caller steps forward in the history. */
  method OperatorRedo(buffer: Register.Number, left: Syntax.LeftOperandSource, right: Syntax.RightOperandSource)
    returns (r: OperationResult)
    ensures r == Ok((Redo, None))
  {
    r := Ok((Redo, None));
  }
}
