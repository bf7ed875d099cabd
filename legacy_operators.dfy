// The single handler of src/operators/mod.rs, on the older register of
// src/number/mod.rs and the operands of the older parser.
module LegacyOperators {
  import opened LegacyNumbers
  import opened LegacySyntax
  import opened Bits

  /** What a handler tells the loop: an error, or whether the command goes into the history. */
  datatype HandlerResult = Error(message: string) | Historical | Nonhistorical

  /**
   * The operands a handler is called with without panicking: a left operand
   * that is no literal unless the right one is a named part, and a literal
   * that `Number::from` reads.
   */
  predicate Handled(left: OperandSource, right: OperandSource)
  {
    (left.DirectSource? ==> right.NamedAccessSource?)
    && (right.DirectSource? ==> Parsable(right.literal, right.radix))
  }

  /** Every command `parse` yields can be handed to a handler. */
  lemma ParsedIsHandled(cmd: string)
    requires Parse(cmd).Ok?
    ensures Handled(Parse(cmd).value.left, Parse(cmd).value.right)
  {
  }

  /**
   * `operator_assign`: a literal on the right, with a range on the left,
   * replaces the register by the literal's register, whatever the range,
   * and so takes its width in whole bytes;
   * any other pair of operands leaves the register as it was. The command
   * goes into the history either way.
   */
  method OperatorAssign(buffer: Number, left: OperandSource, right: OperandSource) returns (r: HandlerResult)
    requires Handled(left, right)
    modifies buffer
    ensures r == Historical
    ensures right.DirectSource? && left.RangeSource? ==>
      Value(buffer.buffer) == DigitsValue(right.literal, right.radix) % Pow2(USIZE_MAX)
      && |buffer.buffer| == buffer.maxSize && buffer.maxSize % 8 == 0 && buffer.maxSize >= 8
      && buffer.numberType == Integer && !buffer.isSigned && !buffer.carry
    ensures right.DirectSource? && left.RangeSource? && DigitsValue(right.literal, right.radix) < Pow2(USIZE_MAX) ==>
      buffer.maxSize == WholeBytes(Max(1, BitLength(DigitsValue(right.literal, right.radix))))
    ensures !(right.DirectSource? && left.RangeSource?) ==> unchanged(buffer)
  {
    if right.DirectSource? && left.RangeSource? {
      var other := new Number.From(right.literal, right.radix);
      buffer.AssignValue(other);
    }
    return Historical;
  }
}
